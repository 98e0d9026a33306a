/**
 Numbers as the C library prints and reads them, and texts split at a separator.
 */
module Numbers {
  import opened CStrings

  type u8 = b: int | 0 <= b < 0x100
  type u16 = b: int | 0 <= b < 0x1_0000
  type u32 = b: int | 0 <= b < 0x1_0000_0000

  const WORD: nat := 0x1_0000_0000
  const LONG_MAX: int := 0x7FFF_FFFF

  predicate IsDigit(c: char) {
    '0' <= c <= '9'
  }

  predicate AllDigits(s: string) {
    forall i :: 0 <= i < |s| ==> IsDigit(s[i])
  }

  function Digit(d: nat): (c: char)
    requires d < 10
    ensures IsDigit(c) && c as int - '0' as int == d
  {
    ('0' as int + d) as char
  }

  /** `%d` of a number that is not negative, and `%lu`. */
  function Dec(n: nat): (s: string)
    ensures s != "" && AllDigits(s)
  {
    if n < 10 then [Digit(n)] else Dec(n / 10) + [Digit(n % 10)]
  }

  /** The number a string of digits stands for. */
  function Value(s: string): nat
    requires AllDigits(s)
    decreases |s|
  {
    if s == "" then 0 else Value(s[..|s| - 1]) * 10 + (s[|s| - 1] as int - '0' as int)
  }

  lemma {:induction false} DecValue(n: nat)
    ensures Value(Dec(n)) == n
    decreases n
  {
    if n >= 10 {
      DecValue(n / 10);
      assert Dec(n)[..|Dec(n)| - 1] == Dec(n / 10);
    }
  }

  function DigitSpan(s: string): (k: nat)
    ensures k <= |s| && AllDigits(s[..k])
    ensures k < |s| ==> !IsDigit(s[k])
  {
    DigitSpanFrom(s, 0)
  }

  function DigitSpanFrom(s: string, from: nat): (k: nat)
    requires from <= |s| && AllDigits(s[..from])
    ensures from <= k <= |s| && AllDigits(s[..k])
    ensures k < |s| ==> !IsDigit(s[k])
    decreases |s| - from
  {
    if from == |s| || !IsDigit(s[from]) then from
    else
      assert s[..from + 1] == s[..from] + [s[from]];
      DigitSpanFrom(s, from + 1)
  }

  predicate IsSpace(c: char) {
    c == ' ' || '\t' <= c <= '\r'
  }

  function SkipSpaces(s: string): (r: string)
    ensures |r| <= |s|
  {
    if s != "" && IsSpace(s[0]) then SkipSpaces(s[1..]) else s
  }

  function Clamp(x: int): int {
    if x > LONG_MAX then LONG_MAX else if x < -LONG_MAX - 1 then -LONG_MAX - 1 else x
  }

  /** `atoi` and `atol` with a 4-byte long: spaces, a sign, digits; out of range values saturate. */
  function Atoi(s: string): int {
    var t := SkipSpaces(s);
    if t != "" && t[0] == '-' then Clamp(-(Value(t[1..][..DigitSpan(t[1..])]) as int))
    else if t != "" && t[0] == '+' then Clamp(Value(t[1..][..DigitSpan(t[1..])]))
    else Clamp(Value(t[..DigitSpan(t)]))
  }

  /** An `int` stored in a ULONG. */
  function ULong(x: int): (u: u32) {
    x % WORD
  }

  /** Digits are read up to the first character that is none. */
  lemma AtoiOfDigits(d: string, rest: string)
    requires d != "" && AllDigits(d) && (rest != "" ==> !IsDigit(rest[0]))
    ensures Atoi(d + rest) == Clamp(Value(d))
  {
    var s := d + rest;
    assert IsDigit(s[0]);
    assert SkipSpaces(s) == s;
    assert s[..|d|] == d;
    DigitSpanIs(s, |d|);
  }

  lemma DigitSpanIs(s: string, k: nat)
    requires k <= |s| && AllDigits(s[..k]) && (k < |s| ==> !IsDigit(s[k]))
    ensures DigitSpan(s) == k
  {
    DigitSpanFromIs(s, 0, k);
  }

  lemma {:induction false} DigitSpanFromIs(s: string, from: nat, k: nat)
    requires from <= k <= |s| && AllDigits(s[..k]) && AllDigits(s[..from]) && (k < |s| ==> !IsDigit(s[k]))
    ensures DigitSpanFrom(s, from) == k
    decreases k - from
  {
    if from < k {
      assert s[..k][from] == s[from];
      assert s[..from + 1] == s[..from] + [s[from]];
      DigitSpanFromIs(s, from + 1, k);
    }
  }

  lemma AtoiOfDec(n: nat)
    ensures Atoi(Dec(n)) == if n <= LONG_MAX then n else LONG_MAX
  {
    AtoiOfDigits(Dec(n), "");
    assert Dec(n) + "" == Dec(n);
    DecValue(n);
  }

  // ---------- separators ----------

  /** The segments between the separators; always at least one, possibly empty. */
  function Split(s: string, c: char): (ps: seq<string>)
    ensures |ps| > 0
    decreases |s|
  {
    match FindChar(s, c)
    case None => [s]
    case Some(k) => [s[..k]] + Split(s[k + 1..], c)
  }

  function Join(ps: seq<string>, c: char): string {
    if |ps| == 0 then "" else if |ps| == 1 then ps[0] else ps[0] + [c] + Join(ps[1..], c)
  }

  lemma {:induction false} SplitJoin(ps: seq<string>, c: char)
    requires |ps| > 0 && forall i :: 0 <= i < |ps| ==> c !in ps[i]
    ensures Split(Join(ps, c), c) == ps
    decreases ps
  {
    if |ps| > 1 {
      var s := Join(ps, c);
      FindCharIs(s, c, |ps[0]|);
      assert s[..|ps[0]|] == ps[0] && s[|ps[0]| + 1..] == Join(ps[1..], c);
      SplitJoin(ps[1..], c);
    }
  }
}
