/**
 NUL-terminated strings and the C library searches the configuration code is
 written with.  A buffer is a sequence of characters; the C string that starts
 at an index runs up to the first NUL.
 */
module CStrings {

  datatype Option<+T> = None | Some(value: T)

  const NUL: char := '\0'

  /** `pat` occurs in `s` at index `k`. */
  predicate At(s: string, k: int, pat: string) {
    0 <= k && k + |pat| <= |s| && s[k..k + |pat|] == pat
  }

  ghost predicate Contains(s: string, pat: string) {
    exists k :: At(s, k, pat)
  }

  /** `strstr`: the first occurrence of `pat`. */
  function FindSub(s: string, pat: string): (r: Option<nat>)
    ensures r.Some? ==> At(s, r.value, pat)
    ensures forall k :: (r.Some? ==> k < r.value) ==> !At(s, k, pat)
  {
    FindSubFrom(s, pat, 0)
  }

  function FindSubFrom(s: string, pat: string, from: nat): (r: Option<nat>)
    ensures r.Some? ==> from <= r.value && At(s, r.value, pat)
    ensures forall k :: from <= k && (r.Some? ==> k < r.value) ==> !At(s, k, pat)
    decreases |s| + 1 - from
  {
    if At(s, from, pat) then Some(from)
    else if from + |pat| >= |s| then None
    else FindSubFrom(s, pat, from + 1)
  }

  /** The first occurrence is the only index with no occurrence before it. */
  lemma FindSubIs(s: string, pat: string, k: nat)
    requires At(s, k, pat)
    requires forall j :: 0 <= j < k ==> !At(s, j, pat)
    ensures FindSub(s, pat) == Some(k)
  {
    assert !(FindSub(s, pat).Some? && FindSub(s, pat).value < k);
  }

  /** `strchr`: the first occurrence of a character. */
  function FindChar(s: string, c: char): (r: Option<nat>)
    ensures r.Some? ==> r.value < |s| && s[r.value] == c
    ensures forall k :: 0 <= k < |s| && (r.Some? ==> k < r.value) ==> s[k] != c
  {
    FindCharFrom(s, c, 0)
  }

  function FindCharFrom(s: string, c: char, from: nat): (r: Option<nat>)
    requires from <= |s|
    ensures r.Some? ==> from <= r.value < |s| && s[r.value] == c
    ensures forall k :: from <= k < |s| && (r.Some? ==> k < r.value) ==> s[k] != c
    decreases |s| - from
  {
    if from == |s| then None
    else if s[from] == c then Some(from)
    else FindCharFrom(s, c, from + 1)
  }

  lemma FindCharIs(s: string, c: char, k: nat)
    requires k < |s| && s[k] == c
    requires c !in s[..k]
    ensures FindChar(s, c) == Some(k)
  {
    assert forall j :: 0 <= j < k ==> s[j] == s[..k][j];
  }

  /** The index of the NUL that ends the string starting at `p` (or the end of the buffer). */
  function StrEnd(b: seq<char>, p: nat): (e: nat)
    requires p <= |b|
    ensures p <= e <= |b|
    ensures forall i :: p <= i < e ==> b[i] != NUL
    ensures e < |b| ==> b[e] == NUL
    decreases |b| - p
  {
    if p == |b| || b[p] == NUL then p else StrEnd(b, p + 1)
  }

  lemma StrEndIs(b: seq<char>, p: nat, e: nat)
    requires p <= e <= |b|
    requires forall i :: p <= i < e ==> b[i] != NUL
    requires e < |b| ==> b[e] == NUL
    ensures StrEnd(b, p) == e
  {
  }

  /** The C string that starts at index `p`. */
  function CStr(b: seq<char>, p: nat): (s: string)
    requires p <= |b|
    ensures NUL !in s
  {
    b[p..StrEnd(b, p)]
  }

  /** Nothing outside [p, e) differs. */
  ghost predicate SameOutside(b: seq<char>, b': seq<char>, p: nat, e: nat) {
    && p <= e <= |b| == |b'|
    && forall i :: 0 <= i < |b| && !(p <= i < e) ==> b'[i] == b[i]
  }
}
