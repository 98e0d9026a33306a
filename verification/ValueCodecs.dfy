/**
 The value formats of source/PsmFileLoader/psm_flo_parse.c: what the writers
 print for addresses, lists and times, what the decoders read, and that
 reading undoes printing.
 */
module ValueCodecs {
  import opened CStrings
  import opened Numbers

  // ---------- IPv4 addresses ----------

  function WriteIp(d: seq<u8>): string
    requires |d| == 4
  {
    Join([Dec(d[0]), Dec(d[1]), Dec(d[2]), Dec(d[3])], '.')
  }

  /** A part of an address as the decoder reads it: an `int` stored in a ULONG. */
  function Octet(part: string): u32 {
    ULong(Atoi(part))
  }

  /** `decodeIpAddr`: four parts of at most 255; the empty text is the zero address. */
  function ParseIp(s: string): Option<seq<u8>> {
    if s == "" then Some([0, 0, 0, 0])
    else
      var ps := Split(s, '.');
      if |ps| == 4 && Octet(ps[0]) <= 0xFF && Octet(ps[1]) <= 0xFF && Octet(ps[2]) <= 0xFF && Octet(ps[3]) <= 0xFF
      then Some([Octet(ps[0]), Octet(ps[1]), Octet(ps[2]), Octet(ps[3])])
      else None
  }

  lemma OctetOfDec(b: u8)
    ensures Octet(Dec(b)) == b
  {
    AtoiOfDec(b);
    hide Atoi;
  }

  lemma DigitsHaveNo(s: string, c: char)
    requires AllDigits(s) && !IsDigit(c)
    ensures c !in s
  {
  }

  lemma IpRoundTrip(d: seq<u8>)
    requires |d| == 4
    ensures ParseIp(WriteIp(d)) == Some(d)
  {
    var ps := [Dec(d[0]), Dec(d[1]), Dec(d[2]), Dec(d[3])];
    forall i | 0 <= i < 4 ensures '.' !in ps[i] {
      DigitsHaveNo(ps[i], '.');
    }
    SplitJoin(ps, '.');
    forall i | 0 <= i < 4 ensures Octet(ps[i]) == d[i] {
      OctetOfDec(d[i]);
    }
    JoinNotEmpty(ps, '.');
    assert d == [d[0], d[1], d[2], d[3]];
    hide Dec, Octet, Split, Join;
  }

  lemma JoinNotEmpty(ps: seq<string>, c: char)
    requires |ps| > 0 && ps[0] != ""
    ensures Join(ps, c) != ""
  {
  }

  lemma DecLength(b: u8)
    ensures 1 <= |Dec(b)| <= 3 && (b == 255 ==> |Dec(b)| == 3)
  {
    if b >= 10 {
      assert Dec(b) == Dec(b / 10) + [Digit(b % 10)];
      if b >= 100 {
        assert Dec(b / 10) == Dec(b / 100) + [Digit(b / 10 % 10)];
      }
    }
  }

  lemma IpLength(d: seq<u8>)
    requires |d| == 4
    ensures 7 <= |WriteIp(d)| <= 15
    ensures d == [255, 255, 255, 255] ==> |WriteIp(d)| == 15
  {
    DecLength(d[0]);
    DecLength(d[1]);
    DecLength(d[2]);
    DecLength(d[3]);
    var a, b, c, e := Dec(d[0]), Dec(d[1]), Dec(d[2]), Dec(d[3]);
    hide Dec;
    JoinFour(a, b, c, e);
  }

  lemma JoinFour(a: string, b: string, c: string, e: string)
    ensures Join([a, b, c, e], '.') == a + "." + (b + "." + (c + "." + e))
  {
    assert [c, e][1..] == [e];
    assert Join([c, e], '.') == c + "." + e;
    assert [b, c, e][1..] == [c, e];
    assert Join([b, c, e], '.') == b + "." + (c + "." + e);
    assert [a, b, c, e][1..] == [b, c, e];
  }

  // ---------- lists ----------

  /** The segments that hold something. */
  function NonEmpty(ps: seq<string>): (r: seq<string>)
    ensures |r| <= |ps|
    ensures forall i :: 0 <= i < |r| ==> r[i] != "" && r[i] in ps
  {
    if ps == [] then [] else (if ps[0] == "" then [] else [ps[0]]) + NonEmpty(ps[1..])
  }

  lemma AllNonEmpty(ps: seq<string>)
    requires forall i :: 0 <= i < |ps| ==> ps[i] != ""
    ensures NonEmpty(ps) == ps
  {
  }

  function Items(s: string): seq<string> {
    NonEmpty(Split(s, ','))
  }

  function Longs(ps: seq<string>): seq<u32> {
    if ps == [] then [] else [ULong(Atoi(ps[0]))] + Longs(ps[1..])
  }

  /** `decodeIntList`: the non-empty segments as numbers; NULL when there is none. */
  function ParseInts(s: string): Option<seq<u32>> {
    if Items(s) == [] then None else Some(Longs(Items(s)))
  }

  function Decs(xs: seq<u32>): (r: seq<string>)
    ensures |r| == |xs|
    ensures forall i :: 0 <= i < |xs| ==> r[i] == Dec(xs[i])
  {
    seq(|xs|, i requires 0 <= i < |xs| => Dec(xs[i]))
  }

  /** The text `writeIntList` prints. */
  function WriteInts(xs: seq<u32>): string {
    Join(Decs(xs), ',')
  }

  /** What a number comes back as: `atoi` saturates. */
  function Saturated(xs: seq<u32>): (r: seq<u32>)
    ensures |r| == |xs|
    ensures forall i :: 0 <= i < |xs| ==> r[i] == if xs[i] <= LONG_MAX then xs[i] else LONG_MAX
  {
    seq(|xs|, i requires 0 <= i < |xs| => if xs[i] <= LONG_MAX then xs[i] else LONG_MAX)
  }

  lemma {:induction false} LongsOfDecs(xs: seq<u32>)
    ensures Longs(Decs(xs)) == Saturated(xs)
    decreases xs
  {
    if xs == [] {
    } else {
      assert Decs(xs)[1..] == Decs(xs[1..]);
      LongsOfDecs(xs[1..]);
      LongOfDec(xs[0]);
      hide Atoi, Dec, ULong;
      assert Saturated(xs) == [Saturated(xs)[0]] + Saturated(xs[1..]);
    }
  }

  lemma LongOfDec(x: u32)
    ensures ULong(Atoi(Dec(x))) == if x <= LONG_MAX then x else LONG_MAX
  {
    AtoiOfDec(x);
    hide Atoi, Dec;
  }

  lemma ItemsOfJoin(ps: seq<string>)
    requires |ps| > 0 && forall i :: 0 <= i < |ps| ==> ps[i] != "" && ',' !in ps[i]
    ensures Items(Join(ps, ',')) == ps
  {
    SplitJoin(ps, ',');
    AllNonEmpty(ps);
  }

  lemma IntsComeBackSaturated(xs: seq<u32>)
    requires xs != []
    ensures ParseInts(WriteInts(xs)) == Some(Saturated(xs))
  {
    forall i | 0 <= i < |xs| ensures Decs(xs)[i] != "" && ',' !in Decs(xs)[i] {
      DigitsHaveNo(Dec(xs[i]), ',');
    }
    ItemsOfJoin(Decs(xs));
    LongsOfDecs(xs);
  }

  /** A list of numbers comes back as it was exactly when no number is above 2^31 - 1. */
  lemma IntsRoundTripIff(xs: seq<u32>)
    requires xs != []
    ensures ParseInts(WriteInts(xs)) == Some(xs) <==> forall i :: 0 <= i < |xs| ==> xs[i] <= LONG_MAX
  {
    IntsComeBackSaturated(xs);
    hide ParseInts, WriteInts;
    if Saturated(xs) == xs {
      assert forall i :: 0 <= i < |xs| ==> Saturated(xs)[i] == xs[i];
    }
  }

  /** The addresses of a list as texts. */
  function IpTexts(d: seq<u8>): (r: seq<string>)
    requires |d| % 4 == 0
    ensures |r| == |d| / 4
  {
    if d == [] then [] else [WriteIp(d[..4])] + IpTexts(d[4..])
  }

  /** The text `writeIP4AddrList` prints. */
  function WriteIps(d: seq<u8>): string
    requires |d| % 4 == 0
  {
    Join(IpTexts(d), ',')
  }

  /** The addresses of all segments, one after another; None when one is rejected. */
  function ParseAll(ps: seq<string>): (r: Option<seq<u8>>)
    ensures r.Some? ==> |r.value| == 4 * |ps|
  {
    if ps == [] then Some([])
    else
      match ParseIp(ps[0])
      case None => None
      case Some(ip) =>
        match ParseAll(ps[1..]) case None => None case Some(more) => Some(ip + more)
  }

  /** `decodeIP4AddrList`: NULL when there is no non-empty segment or one is rejected. */
  function ParseIps(s: string): Option<seq<u8>> {
    if Items(s) == [] then None else ParseAll(Items(s))
  }

  lemma {:induction false} IpTextsParse(d: seq<u8>)
    requires |d| % 4 == 0
    ensures ParseAll(IpTexts(d)) == Some(d)
    ensures forall i :: 0 <= i < |IpTexts(d)| ==> IpTexts(d)[i] != "" && ',' !in IpTexts(d)[i]
    decreases d
  {
    if d == [] {
    } else {
      IpTextsParse(d[4..]);
      IpRoundTrip(d[..4]);
      IpHasNoComma(d[..4]);
      hide WriteIp, ParseIp;
      assert d[..4] + d[4..] == d;
    }
  }

  lemma IpHasNoComma(d: seq<u8>)
    requires |d| == 4
    ensures ',' !in WriteIp(d) && WriteIp(d) != ""
  {
    var a, b, c, e := Dec(d[0]), Dec(d[1]), Dec(d[2]), Dec(d[3]);
    hide Dec;
    JoinFour(a, b, c, e);
    assert forall s: string :: AllDigits(s) ==> ',' !in s;
  }

  lemma IpsRoundTrip(d: seq<u8>)
    requires |d| % 4 == 0 && d != []
    ensures ParseIps(WriteIps(d)) == Some(d)
  {
    IpTextsParse(d);
    ItemsOfJoin(IpTexts(d));
    hide IpTexts, ParseAll;
  }

  /** Sixteen bytes per address hold the text and its NUL; lists of 255.255.255.255 need them all. */
  lemma {:induction false} IpsLength(d: seq<u8>)
    requires |d| % 4 == 0 && d != []
    ensures |WriteIps(d)| + 1 <= 4 * |d|
    ensures (forall i :: 0 <= i < |d| ==> d[i] == 255) ==> |WriteIps(d)| + 1 == 4 * |d|
    decreases d
  {
    IpLength(d[..4]);
    assert (forall i :: 0 <= i < |d| ==> d[i] == 255) ==> d[..4] == [255, 255, 255, 255];
    var more := d[4..];
    assert IpTexts(d) == [WriteIp(d[..4])] + IpTexts(more);
    if more == [] {
      assert WriteIps(d) == WriteIp(d[..4]);
    } else {
      IpsLength(more);
      assert IpTexts(d)[1..] == IpTexts(more);
      assert WriteIps(d) == WriteIp(d[..4]) + "," + WriteIps(more);
    }
  }
}
