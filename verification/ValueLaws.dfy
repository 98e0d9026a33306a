/**
 Which texts the value decoders of source/PsmFileLoader/psm_flo_parse.c accept and what
 those texts stand for, told by their characters and segments.
 */
module ValueLaws {
  import opened CStrings
  import opened Numbers
  import opened ValueCodecs
  import opened MacCalendar

  // ---------- MAC addresses ----------

  const UPPER_HEX := "0123456789ABCDEF"
  const LOWER_HEX := "0123456789abcdef"

  predicate IsHex(c: char) {
    '0' <= c <= '9' || 'A' <= c <= 'F' || 'a' <= c <= 'f'
  }

  /** Every third character is a colon and the others are hexadecimal digits, in either case. */
  predicate MacShaped(s: string) {
    |s| % 3 == 2 && forall i :: 0 <= i < |s| ==> if i % 3 == 2 then s[i] == ':' else IsHex(s[i])
  }

  /** `c` is the hexadecimal digit `d`, in either case. */
  predicate HexIs(c: char, d: nat) {
    d < 16 && (c == UPPER_HEX[d] || c == LOWER_HEX[d])
  }

  /** Exactly the texts of pairs of digits between colons are decoded. */
  lemma MacAcceptedIff(s: string)
    ensures DecodeMac(s).MacOk? <==> MacShaped(s)
  {
    assert forall i :: 0 <= i < |s| ==> (PlaceOk(s, i) <==> if i % 3 == 2 then s[i] == ':' else IsHex(s[i]));
    hide PlaceOk, Nibble, IsHex, MacBytes;
    if FirstBad(s, 0) == None {
      assert forall i :: 0 <= i < |s| ==> PlaceOk(s, i);
    }
  }

  /** A refused text is a failure when its length is wrong or a colon is missing first, else it is invalid. */
  lemma MacRefusal(s: string, k: nat)
    requires |s| % 3 == 2 && k < |s| && !(if k % 3 == 2 then s[k] == ':' else IsHex(s[k]))
    requires forall i :: 0 <= i < k ==> if i % 3 == 2 then s[i] == ':' else IsHex(s[i])
    ensures DecodeMac(s) == if k % 3 == 2 then MacFailure else MacInvalid
  {
    assert forall i :: 0 <= i < |s| ==> (PlaceOk(s, i) <==> if i % 3 == 2 then s[i] == ':' else IsHex(s[i]));
    hide PlaceOk, Nibble, IsHex, MacBytes;
    assert FirstBad(s, 0) == Some(k);
  }

  lemma HexNibbleIs(c: char, d: nat)
    requires HexIs(c, d)
    ensures Nibble(c) == Some(d)
  {
    assert UPPER_HEX[d] == if d < 10 then ('0' as int + d) as char else ('A' as int + d - 10) as char;
    assert LOWER_HEX[d] == if d < 10 then ('0' as int + d) as char else ('a' as int + d - 10) as char;
    hide UPPER_HEX, LOWER_HEX;
  }

  /** Each pair of digits is one byte, high digit first; a wrong length is a failure. */
  lemma MacMeans(s: string, d: seq<u8>)
    requires d != [] && |s| == 3 * |d| - 1
    requires forall j :: 0 <= j < |d| ==> HexIs(s[3 * j], d[j] / 16) && HexIs(s[3 * j + 1], d[j] % 16)
    requires forall j :: 0 <= j < |d| - 1 ==> s[3 * j + 2] == ':'
    ensures DecodeMac(s) == MacOk(d)
  {
    forall j | 0 <= j < |d| ensures Nibble(s[3 * j]) == Some(d[j] / 16) && Nibble(s[3 * j + 1]) == Some(d[j] % 16) {
      HexNibbleIs(s[3 * j], d[j] / 16);
      HexNibbleIs(s[3 * j + 1], d[j] % 16);
    }
    hide Nibble, HexIs;
    forall i: nat | i < |s| ensures PlaceOk(s, i) {
      ThirdsCover(i);
      var j := i / 3;
      assert Nibble(s[3 * j]) == Some(d[j] / 16);
      assert i == 3 * j + 2 ==> s[3 * j + 2] == ':';
    }
    forall j | 0 <= j < |d| ensures PairAt(s, j) == d[j] {
    }
    hide PlaceOk;
    assert MacBytes(s) == d;
  }

  lemma ThirdsCover(i: nat)
    ensures i == 3 * (i / 3) || i == 3 * (i / 3) + 1 || i == 3 * (i / 3) + 2
    ensures i % 3 == i - 3 * (i / 3)
  {
  }

  lemma MacLength(s: string)
    ensures |s| % 3 != 2 ==> DecodeMac(s) == MacFailure
  {
  }

  /** The case of the letters does not matter. */
  lemma MacIgnoresCase(s: string, t: string)
    requires |s| == |t| && forall i :: 0 <= i < |s| ==> UpperChar(s[i]) == UpperChar(t[i])
    ensures DecodeMac(s) == DecodeMac(t)
  {
    forall i | 0 <= i < |s| ensures Nibble(s[i]) == Nibble(t[i]) && (PlaceOk(s, i) <==> PlaceOk(t, i)) {
      SameNibble(s[i], t[i]);
      hide Nibble, UpperChar;
    }
    hide Nibble, PlaceOk, UpperChar;
    SameFirstBad(s, t);
    if AllPlaced(s) {
      SameBytes(s, t);
    }
  }

  lemma SameNibble(c: char, e: char)
    requires UpperChar(c) == UpperChar(e)
    ensures Nibble(c) == Nibble(e) && (c == ':' <==> e == ':')
  {
  }

  lemma SameFirstBad(s: string, t: string)
    requires |s| == |t| && forall i :: 0 <= i < |s| ==> (PlaceOk(s, i) <==> PlaceOk(t, i))
    ensures FirstBad(s, 0) == FirstBad(t, 0)
  {
    hide PlaceOk;
    var a, b := FirstBad(s, 0), FirstBad(t, 0);
    assert a.Some? ==> !PlaceOk(t, a.value);
    assert b.Some? ==> !PlaceOk(s, b.value);
  }

  lemma SameBytes(s: string, t: string)
    requires AllPlaced(s) && AllPlaced(t) && |s| == |t|
    requires forall i :: 0 <= i < |s| ==> Nibble(s[i]) == Nibble(t[i])
    ensures MacBytes(s) == MacBytes(t)
  {
    hide Nibble, PlaceOk;
    forall j | 0 <= j <= |s| / 3 ensures PairAt(s, j) == PairAt(t, j) {
      assert Nibble(s[3 * j]) == Nibble(t[3 * j]) && Nibble(s[3 * j + 1]) == Nibble(t[3 * j + 1]);
    }
    assert forall j :: 0 <= j <= |s| / 3 ==> MacBytes(s)[j] == MacBytes(t)[j];
  }

  // ---------- numbers ----------

  /** A string of digits stands for the number with these decimal digits. */
  lemma {:induction false} ValueDigits(s: string, k: nat)
    requires AllDigits(s) && k < |s|
    ensures Value(s) / Pow10(k) % 10 == s[|s| - 1 - k] as int - '0' as int
    decreases |s|
  {
    var front := s[..|s| - 1];
    assert Value(s) == Value(front) * 10 + (s[|s| - 1] as int - '0' as int);
    if k == 0 {
    } else {
      ValueDigits(front, k - 1);
      DivideTwice(Value(front), s[|s| - 1] as int - '0' as int, Pow10(k - 1));
    }
  }

  lemma {:induction false} ValueBelow(s: string)
    requires AllDigits(s)
    ensures Value(s) < Pow10(|s|)
    decreases |s|
  {
    if s == "" {
    } else {
      ValueBelow(s[..|s| - 1]);
    }
  }

  lemma DivideTwice(v: nat, d: nat, p: nat)
    requires d < 10 && p > 0
    ensures (v * 10 + d) / (10 * p) == v / p
  {
    var q, r := v / p, v % p;
    assert v == q * p + r;
    assert v * 10 + d == q * (10 * p) + (r * 10 + d);
    DivIs(v * 10 + d, 10 * p, q, r * 10 + d);
  }

  lemma DivIs(n: nat, p: nat, q: nat, r: nat)
    requires p > 0 && n == q * p + r && r < p
    ensures n / p == q
  {
    var q', r' := n / p, n % p;
    assert (q - q') * p == q * p - q' * p == r' - r;
    assert (q' - q) * p == q' * p - q * p == r - r';
    if q' < q {
      AtLeastOnce(q - q', p);
    } else if q' > q {
      AtLeastOnce(q' - q, p);
    }
  }

  lemma AtLeastOnce(a: nat, p: nat)
    requires a > 0
    ensures a * p >= p
  {
    assert a * p == (a - 1) * p + p;
  }

  /** The printed number: its decimal digits, without a leading zero. */
  lemma DecDigits(n: nat, k: nat)
    requires k < |Dec(n)|
    ensures Dec(n)[|Dec(n)| - 1 - k] as int - '0' as int == n / Pow10(k) % 10
    ensures n < Pow10(|Dec(n)|) && (n >= 10 ==> Dec(n)[0] != '0')
  {
    hide *;
    DecValue(n);
    ValueDigits(Dec(n), k);
    ValueBelow(Dec(n));
    DecLead(n);
  }

  lemma {:induction false} DecLead(n: nat)
    ensures n > 0 ==> Dec(n)[0] != '0'
    decreases n
  {
    if n >= 10 {
      DecLead(n / 10);
    }
  }

  predicate Blank(s: string) {
    forall i :: 0 <= i < |s| ==> s[i] == ' ' || s[i] == '\t' || s[i] == '\n' || s[i] == '\r' || s[i] as int in {11, 12}
  }

  /** Leading blanks, one sign, digits; anything behind them is ignored and large numbers are cut. */
  lemma AtoiMeans(blanks: string, sign: string, digits: string, rest: string)
    requires Blank(blanks) && sign in ["", "-", "+"] && AllDigits(digits)
    requires rest != "" ==> rest[0] !in "0123456789"
    requires sign == "" && digits == "" && rest != "" ==> rest[0] !in "+-" && !Blank(rest[..1])
    ensures Atoi(blanks + sign + digits + rest) ==
            var v: int := if sign == "-" then -(Value(digits) as int) else Value(digits);
            if v > 2147483647 then 2147483647 else if v < -2147483648 then -2147483648 else v
  {
    var s := blanks + sign + digits + rest;
    var t := sign + (digits + rest);
    assert s == blanks + t;
    SignedIsNoSpace(sign, digits, rest);
    SkipBlanks(blanks, t);
    assert rest != "" ==> !IsDigit(rest[0]) by { NoDigit(rest); }
    ReadSigned(s, sign, digits, rest);
  }

  lemma SignedIsNoSpace(sign: string, digits: string, rest: string)
    requires sign in ["", "-", "+"] && AllDigits(digits)
    requires sign == "" && digits == "" && rest != "" ==> rest[0] !in "+-" && !Blank(rest[..1])
    ensures var t := sign + (digits + rest); t != "" ==> !IsSpace(t[0])
    ensures var t := sign + (digits + rest);
            sign == "" && (digits != "" || (rest != "" ==> rest[0] !in "+-")) && t != "" ==> t[0] != '-' && t[0] != '+'
  {
    var t := sign + (digits + rest);
    if sign == "" {
      assert t == digits + rest;
      if digits == "" {
        assert t == rest;
        if rest != "" {
          assert rest[..1] == [rest[0]];
          NotBlank(rest[0]);
        }
      } else {
        assert t[0] == digits[0];
      }
    } else {
      assert t[0] == sign[0];
    }
  }

  /** What is read behind the blanks. */
  lemma ReadSigned(s: string, sign: string, digits: string, rest: string)
    requires sign in ["", "-", "+"] && AllDigits(digits) && SkipSpaces(s) == sign + (digits + rest)
    requires rest != "" ==> !IsDigit(rest[0])
    requires sign == "" && digits == "" && rest != "" ==> rest[0] !in "+-"
    ensures Atoi(s) == Clamp(if sign == "-" then -(Value(digits) as int) else Value(digits))
  {
    var t, u := sign + (digits + rest), digits + rest;
    assert u[..|digits|] == digits;
    DigitSpanIs(u, |digits|);
    hide Value, SkipSpaces, DigitSpan, Clamp;
    if sign == "" {
      assert t == u;
      assert t != "" ==> t[0] == if digits == "" then rest[0] else digits[0];
    } else {
      assert t[1..] == u && t[0] == sign[0];
    }
  }

  lemma NotBlank(c: char)
    requires !Blank([c])
    ensures !IsSpace(c)
  {
    assert [c][0] == c;
  }

  lemma NoDigit(rest: string)
    requires rest != "" ==> rest[0] !in "0123456789"
    ensures rest != "" ==> !IsDigit(rest[0])
  {
    if rest != "" && IsDigit(rest[0]) {
      DigitIsListed(rest[0]);
    }
  }

  lemma DigitIsListed(c: char)
    requires IsDigit(c)
    ensures c in "0123456789"
  {
    assert "0123456789"[c as int - '0' as int] == c;
  }

  lemma {:induction false} SkipBlanks(blanks: string, t: string)
    requires Blank(blanks) && (t != "" ==> !IsSpace(t[0]))
    ensures SkipSpaces(blanks + t) == t
    decreases blanks
  {
    if blanks == "" {
      assert blanks + t == t;
    } else {
      assert (blanks + t)[1..] == blanks[1..] + t;
      SkipBlanks(blanks[1..], t);
    }
  }

  // ---------- separators ----------

  /** One segment more than there are separators. */
  lemma {:induction false} SplitCount(s: string, c: char)
    ensures |Split(s, c)| == multiset(s)[c] + 1
    decreases |s|
  {
    match FindChar(s, c) {
      case None =>
      case Some(k) =>
        SplitCount(s[k + 1..], c);
        assert s == s[..k] + [c] + s[k + 1..];
        assert multiset(s) == multiset(s[..k]) + multiset{c} + multiset(s[k + 1..]);
        assert multiset(s[..k])[c] == 0;
    }
  }

  lemma {:induction false} SplitConcat(s: string, t: string, c: char)
    ensures Split(s + [c] + t, c) == Split(s, c) + Split(t, c)
    decreases |s|
  {
    var u := s + [c] + t;
    match FindChar(s, c) {
      case None =>
        FindCharIs(u, c, |s|) by { assert u[..|s|] == s; }
        assert u[..|s|] == s && u[|s| + 1..] == t;
      case Some(k) =>
        FindCharIs(u, c, k) by { assert u[..k] == s[..k]; }
        assert u[..k] == s[..k] && u[k + 1..] == s[k + 1..] + [c] + t;
        SplitConcat(s[k + 1..], t, c);
    }
  }

  lemma SplitNone(s: string, c: char)
    requires c !in s
    ensures Split(s, c) == [s]
  {
  }

  // ---------- IPv4 addresses ----------

  /** Without exactly three dots a text is no address, unless it is empty. */
  lemma IpDots(s: string)
    ensures s == "" ==> ParseIp(s) == Some([0, 0, 0, 0])
    ensures s != "" && multiset(s)['.'] != 3 ==> ParseIp(s) == None
  {
    SplitCount(s, '.');
  }

  /** With them it is one exactly when every part reads as 0 to 255, and these are its bytes. */
  lemma IpMeans(a: string, b: string, c: string, d: string)
    requires '.' !in a && '.' !in b && '.' !in c && '.' !in d
    ensures ParseIp(a + "." + b + "." + c + "." + d) ==
            if 0 <= Atoi(a) <= 255 && 0 <= Atoi(b) <= 255 && 0 <= Atoi(c) <= 255 && 0 <= Atoi(d) <= 255
            then Some([Atoi(a), Atoi(b), Atoi(c), Atoi(d)]) else None
  {
    var s := a + "." + b + "." + c + "." + d;
    assert s == a + "." + (b + "." + (c + "." + d));
    JoinFour(a, b, c, d);
    var ps := [a, b, c, d];
    SplitJoin(ps, '.');
    assert s[|a|] == '.';
    SmallOctet(a);
    SmallOctet(b);
    SmallOctet(c);
    SmallOctet(d);
    hide Octet, Atoi, Split, Join;
  }

  lemma SmallOctet(p: string)
    ensures Octet(p) <= 255 <==> 0 <= Atoi(p) <= 255
    ensures Octet(p) <= 255 ==> Octet(p) == Atoi(p)
  {
    AtoiRange(p);
    hide Atoi;
  }

  lemma AtoiRange(p: string)
    ensures -0x8000_0000 <= Atoi(p) <= 0x7FFF_FFFF
  {
    hide Value, DigitSpan, SkipSpaces;
  }

  // ---------- lists ----------

  /** The numbers of a text; NULL stands for none. */
  function Listed(r: Option<seq<u32>>): seq<u32> {
    match r case None => [] case Some(xs) => xs
  }

  /** A text without commas is one number, or none when it is empty. */
  lemma IntsOfSegment(p: string)
    requires ',' !in p
    ensures ParseInts(p) == if p == "" then None else Some([ULong(Atoi(p))])
  {
    ItemsOfSegment(p);
    LongsOfOne(p);
    hide Items, Longs, Atoi, ULong;
  }

  lemma ItemsOfSegment(p: string)
    requires ',' !in p
    ensures Items(p) == if p == "" then [] else [p]
  {
    SplitNone(p, ',');
    hide Split;
    assert [p][1..] == [];
  }

  lemma LongsOfOne(p: string)
    ensures Longs([p]) == [ULong(Atoi(p))]
  {
    hide Atoi, ULong;
    assert [p][1..] == [];
  }

  lemma ParseAllOne(p: string)
    ensures ParseAll([p]) == ParseIp(p)
  {
    hide ParseIp;
    assert [p][1..] == [];
    if ParseIp(p).Some? {
      assert ParseIp(p).value + [] == ParseIp(p).value;
    }
  }

  /** Texts joined by a comma hold the numbers of both. */
  lemma IntsConcat(s: string, t: string)
    ensures Listed(ParseInts(s + "," + t)) == Listed(ParseInts(s)) + Listed(ParseInts(t))
    ensures ParseInts(s + "," + t) == None <==> ParseInts(s) == None && ParseInts(t) == None
  {
    hide Split, Longs;
    SplitConcat(s, t, ',');
    NonEmptyConcat(Split(s, ','), Split(t, ','));
    LongsConcat(Items(s), Items(t));
    assert Longs([]) == [] by { LongsOfNone(); }
  }

  lemma LongsOfNone()
    ensures Longs([]) == []
  {
  }

  lemma {:induction false} NonEmptyConcat(a: seq<string>, b: seq<string>)
    ensures NonEmpty(a + b) == NonEmpty(a) + NonEmpty(b)
    decreases a
  {
    if a == [] {
      assert a + b == b;
    } else {
      assert (a + b)[1..] == a[1..] + b;
      NonEmptyConcat(a[1..], b);
    }
  }

  lemma {:induction false} LongsConcat(a: seq<string>, b: seq<string>)
    ensures Longs(a + b) == Longs(a) + Longs(b)
    decreases a
  {
    hide Atoi;
    if a == [] {
      assert a + b == b;
    } else {
      assert (a + b)[1..] == a[1..] + b;
      LongsConcat(a[1..], b);
    }
  }

  /** A text without commas is one address, or none when it is empty. */
  lemma IpsOfSegment(p: string)
    requires ',' !in p
    ensures ParseIps(p) == if p == "" then None else ParseIp(p)
  {
    ItemsOfSegment(p);
    ParseAllOne(p);
    hide Items, ParseAll, ParseIp;
  }

  predicate OnlyCommas(s: string) {
    forall i :: 0 <= i < |s| ==> s[i] == ','
  }

  /** Texts joined by a comma hold the addresses of both; one rejected address rejects the list. */
  lemma IpsConcat(s: string, t: string)
    ensures ParseIps(s + "," + t) ==
            if OnlyCommas(s) then ParseIps(t)
            else if OnlyCommas(t) then ParseIps(s)
            else if ParseIps(s).None? || ParseIps(t).None? then None
            else Some(ParseIps(s).value + ParseIps(t).value)
  {
    hide Split, ParseAll, OnlyCommas;
    SplitConcat(s, t, ',');
    NonEmptyConcat(Split(s, ','), Split(t, ','));
    ParseAllConcat(Items(s), Items(t));
    NoItemsIff(s);
    NoItemsIff(t);
    if Items(s) == [] {
      assert Items(s) + Items(t) == Items(t);
    }
    if Items(t) == [] {
      assert Items(s) + Items(t) == Items(s);
    }
  }

  lemma {:induction false} NoItemsIff(s: string)
    ensures Items(s) == [] <==> OnlyCommas(s)
    decreases |s|
  {
    match FindChar(s, ',') {
      case None =>
        assert s != "" ==> s[0] != ',';
      case Some(k) =>
        NoItemsIff(s[k + 1..]);
        assert Split(s, ',')[0] == s[..k] && Split(s, ',')[1..] == Split(s[k + 1..], ',');
        if k > 0 {
          assert s[0] != ',';
        } else {
          assert OnlyCommas(s) <==> OnlyCommas(s[1..]) by {
            assert forall i :: 0 <= i < |s| - 1 ==> s[1..][i] == s[i + 1];
            assert OnlyCommas(s[1..]) ==> forall i :: 1 <= i < |s| ==> s[i] == s[1..][i - 1] == ',';
          }
        }
    }
  }

  lemma {:induction false} ParseAllConcat(a: seq<string>, b: seq<string>)
    ensures ParseAll(a + b) ==
            if ParseAll(a).None? || ParseAll(b).None? then None else Some(ParseAll(a).value + ParseAll(b).value)
    decreases a
  {
    hide ParseIp;
    if a == [] {
      assert a + b == b;
      assert ParseAll(b).Some? ==> [] + ParseAll(b).value == ParseAll(b).value;
    } else {
      assert (a + b)[1..] == a[1..] + b;
      ParseAllConcat(a[1..], b);
      assert (a + b)[0] == a[0];
      if ParseIp(a[0]).Some? && ParseAll(a[1..]).Some? && ParseAll(b).Some? {
        var ip, x, y := ParseIp(a[0]).value, ParseAll(a[1..]).value, ParseAll(b).value;
        assert ip + (x + y) == ip + x + y;
      }
    }
  }

  // ---------- the printed lists ----------

  /** The four numbers with dots between them. */
  lemma IpText(d: seq<u8>)
    requires |d| == 4
    ensures WriteIp(d) == Dec(d[0]) + "." + (Dec(d[1]) + "." + (Dec(d[2]) + "." + Dec(d[3])))
  {
    JoinFour(Dec(d[0]), Dec(d[1]), Dec(d[2]), Dec(d[3]));
    hide Dec, Join;
  }

  /** The segments of a printed list are the printed numbers. */
  lemma IntSegments(xs: seq<u32>)
    requires xs != []
    ensures var ps := Split(WriteInts(xs), ','); |ps| == |xs| && forall i :: 0 <= i < |xs| ==> ps[i] == Dec(xs[i])
  {
    forall i | 0 <= i < |xs| ensures ',' !in Decs(xs)[i] {
      DigitsHaveNo(Dec(xs[i]), ',');
    }
    SplitJoin(Decs(xs), ',');
    hide Dec, Split, Join;
  }

  /** The segments of a printed list are the printed addresses, in order. */
  lemma IpSegments(d: seq<u8>)
    requires |d| % 4 == 0 && d != []
    ensures var ps := Split(WriteIps(d), ',');
            |ps| == |d| / 4 && forall i :: 0 <= i < |d| / 4 ==> ps[i] == WriteIp(d[4 * i..4 * i + 4])
  {
    IpTextsParse(d);
    SplitJoin(IpTexts(d), ',');
    hide Split, Join, WriteIp, ParseAll;
    forall i: nat | i < |d| / 4 ensures IpTexts(d)[i] == WriteIp(d[4 * i..4 * i + 4]) {
      hide IpTexts;
      IpTextAt(d, i);
    }
  }

  lemma {:induction false} IpTextAt(d: seq<u8>, i: nat)
    requires |d| % 4 == 0 && i < |d| / 4
    ensures IpTexts(d)[i] == WriteIp(d[4 * i..4 * i + 4])
    decreases i
  {
    hide WriteIp;
    if i == 0 {
    } else {
      IpTextAt(d[4..], i - 1);
      Shifted(d, 4 * i);
    }
  }

  lemma Shifted(d: seq<u8>, k: nat)
    requires 4 <= k && k + 4 <= |d|
    ensures d[4..][k - 4..k] == d[k..k + 4]
  {
  }

  // ---------- calendar times ----------

  /** A time of ordinary size: year/month/day hour:minute:second, four digits for the year and two for the others. */
  lemma CalendarShape(c: Calendar)
    requires c.year < 10000 && c.month < 100 && c.day < 100 && c.hour < 100 && c.minute < 100 && c.second < 100
    ensures var s := WriteCalendar(c);
            && |s| == 19 && s[4] == '/' && s[7] == '/' && s[10] == ' ' && s[13] == ':' && s[16] == ':'
            && AllDigits(s[..4]) && Value(s[..4]) == c.year && AllDigits(s[5..7]) && Value(s[5..7]) == c.month
            && AllDigits(s[8..10]) && Value(s[8..10]) == c.day && AllDigits(s[11..13]) && Value(s[11..13]) == c.hour
            && AllDigits(s[14..16]) && Value(s[14..16]) == c.minute
            && AllDigits(s[17..]) && Value(s[17..]) == c.second
  {
    var y, m, d := Pad(c.year, 4), Pad(c.month, 2), Pad(c.day, 2);
    var h, n, e := Pad(c.hour, 2), Pad(c.minute, 2), Pad(c.second, 2);
    assert Pow10(2) == 100 && Pow10(4) == 10000 by { assert Pow10(1) == 10 && Pow10(3) == 1000; }
    PadIs(c.year, 4);
    PadIs(c.month, 2);
    PadIs(c.day, 2);
    PadIs(c.hour, 2);
    PadIs(c.minute, 2);
    PadIs(c.second, 2);
    hide Pad, Value, Pow10;
    SixParts(y, m, d, h, n, e);
  }

  lemma SixParts(y: string, m: string, d: string, h: string, n: string, e: string)
    requires |y| == 4 && |m| == 2 && |d| == 2 && |h| == 2 && |n| == 2 && |e| == 2
    ensures var s := y + "/" + (m + "/" + (d + " " + (h + ":" + (n + ":" + e))));
            && |s| == 19 && s[4] == '/' && s[7] == '/' && s[10] == ' ' && s[13] == ':' && s[16] == ':'
            && s[..4] == y && s[5..7] == m && s[8..10] == d && s[11..13] == h && s[14..16] == n && s[17..] == e
  {
  }

  lemma PadIs(n: nat, w: nat)
    requires w > 0 && n < Pow10(w)
    ensures |Pad(n, w)| == w && Value(Pad(n, w)) == n
  {
    DecBound(n, w);
    ZerosAreZero(w - |Dec(n)|);
    DecValue(n);
    ValueOfPadded(Zeros(w - |Dec(n)|), Dec(n));
    hide Dec, Zeros, Value, Pow10;
  }

  /** The scanner reads one field: whatever digits it finds, up to seven of them, in 16 bits. */
  lemma ScanField(skipped: string, digits: string, rest: string, n: nat)
    requires forall i :: 0 <= i < |skipped| ==> !IsDigit(skipped[i])
    requires digits != "" && AllDigits(digits) && (rest != "" ==> !IsDigit(rest[0]))
    ensures |digits| > 7 ==> ScanFields(skipped + digits + rest, n + 1) == None
    ensures |digits| <= 7 ==>
              ScanFields(skipped + digits + rest, 1) == Some([Value(digits) % 65536])
    ensures |digits| <= 7 && rest == "" ==> ScanFields(skipped + digits + rest, n + 2) == None
    ensures |digits| <= 7 && rest != "" ==>
              ScanFields(skipped + digits + rest, n + 2) ==
              match ScanFields(rest[1..], n + 1)
              case None => None
              case Some(more) => Some([Value(digits) % 65536] + more)
  {
    var s := skipped + digits + rest;
    NextDigitIs(s, |skipped|);
    var t := s[|skipped|..];
    assert t == digits + rest && t[..|digits|] == digits;
    DigitSpanIs(t, |digits|);
    if |digits| <= 7 {
      SevenDigits(digits);
      assert rest != "" ==> t[|digits| + 1..] == rest[1..];
    }
    hide Atoi, ULong, Value, NextDigit, DigitSpan;
  }

  lemma SevenDigits(d: string)
    requires d != "" && AllDigits(d) && |d| <= 7
    ensures ULong(Atoi(d)) == Value(d)
  {
    hide *;
    AtoiOfDigits(d, "");
    assert d + "" == d;
    ValueBelow(d);
    PowGrows(|d|);
    SmallIsKept(Value(d));
  }

  lemma SmallIsKept(x: nat)
    requires x < 10000000
    ensures ULong(Clamp(x)) == x
  {
  }

  lemma PowGrows(k: nat)
    requires k <= 7
    ensures Pow10(k) <= 10000000
  {
    assert Pow10(0) == 1 && Pow10(1) == 10 && Pow10(2) == 100 && Pow10(3) == 1000;
    assert Pow10(4) == 10000 && Pow10(5) == 100000 && Pow10(6) == 1000000 && Pow10(7) == 10000000;
  }

  lemma NextDigitIs(s: string, k: nat)
    requires k < |s| && IsDigit(s[k]) && forall i :: 0 <= i < k ==> !IsDigit(s[i])
    ensures NextDigit(s) == k
  {
    hide NextDigit;
  }
}
