/**
 `getParameterNames` (source/Ssp/ssp_dbus.c): the names under a prefix, or only
 their next level, without repeats and in the order of first occurrence.
 */
module NameListing {
  import opened CStrings

  /** What a record's name contributes: nothing, itself, or itself cut behind the next dot. */
  function Cut(name: string, prefix: string, nextLevel: bool): Option<string> {
    if !(prefix <= name) then None
    else if !nextLevel then Some(name)
    else if |name| <= |prefix| then None
    else
      match FindChar(name[|prefix|..], '.')
      case None => Some(name)
      case Some(k) => Some(name[..|prefix| + k + 1])
  }

  function Listed(names: seq<string>, prefix: string, nextLevel: bool): seq<string> {
    if names == [] then []
    else
      var out, last := Listed(names[..|names| - 1], prefix, nextLevel), Cut(names[|names| - 1], prefix, nextLevel);
      if last.None? || last.value in out then out else out + [last.value]
  }

  /** The cut keeps the prefix and ends at the first dot behind it, or where the name ends if there is none. */
  lemma CutShape(name: string, prefix: string, nextLevel: bool)
    ensures Cut(name, prefix, nextLevel).Some? <==> prefix <= name && (nextLevel ==> name != prefix)
    ensures Cut(name, prefix, nextLevel).Some? ==>
              var x := Cut(name, prefix, nextLevel).value;
              && prefix <= x <= name
              && (!nextLevel ==> x == name)
              && (nextLevel ==> |x| > |prefix| && (x == name || x[|x| - 1] == '.'))
              && (nextLevel ==> forall i :: |prefix| <= i < |x| - 1 ==> x[i] != '.')
  {
    if prefix <= name && nextLevel && |name| > |prefix| {
      var t := name[|prefix|..];
      var k := FindChar(t, '.');
      assert forall i :: |prefix| <= i < |name| ==> name[i] == t[i - |prefix|];
    }
  }

  /** Index `i` is the first record that contributes `x`. */
  ghost predicate FirstAt(names: seq<string>, prefix: string, nextLevel: bool, x: string, i: nat) {
    && i < |names| && Cut(names[i], prefix, nextLevel) == Some(x)
    && forall j :: 0 <= j < i ==> Cut(names[j], prefix, nextLevel) != Some(x)
  }

  predicate AllDifferent(s: seq<string>) {
    forall a, b :: 0 <= a < b < |s| ==> s[a] != s[b]
  }

  lemma DifferentSnoc(s: seq<string>, x: string)
    requires AllDifferent(s) && x !in s
    ensures AllDifferent(s + [x])
  {
    assert forall a :: 0 <= a < |s| ==> (s + [x])[a] == s[a] != x;
  }

  lemma {:induction false} ListedDistinct(names: seq<string>, prefix: string, nextLevel: bool)
    ensures AllDifferent(Listed(names, prefix, nextLevel))
    decreases names
  {
    hide Cut;
    if names == [] {
    } else {
      var front, last := names[..|names| - 1], Cut(names[|names| - 1], prefix, nextLevel);
      ListedDistinct(front, prefix, nextLevel);
      hide AllDifferent;
      if last.Some? && last.value !in Listed(front, prefix, nextLevel) {
        DifferentSnoc(Listed(front, prefix, nextLevel), last.value);
      }
    }
  }

  /** `x` is what some record contributes. */
  ghost predicate Contributed(names: seq<string>, prefix: string, nextLevel: bool, x: string) {
    exists i :: 0 <= i < |names| && Cut(names[i], prefix, nextLevel) == Some(x)
  }

  lemma ContributedSnoc(names: seq<string>, prefix: string, nextLevel: bool, x: string)
    requires names != []
    ensures Contributed(names, prefix, nextLevel, x) <==>
            || Contributed(names[..|names| - 1], prefix, nextLevel, x)
            || Cut(names[|names| - 1], prefix, nextLevel) == Some(x)
  {
    hide Cut;
    var front := names[..|names| - 1];
    assert forall i :: 0 <= i < |front| ==> names[i] == front[i];
    if Contributed(front, prefix, nextLevel, x) {
      var i :| 0 <= i < |front| && Cut(front[i], prefix, nextLevel) == Some(x);
      assert Cut(names[i], prefix, nextLevel) == Some(x);
    }
  }

  lemma {:induction false} ListedContributed(names: seq<string>, prefix: string, nextLevel: bool, x: string)
    ensures x in Listed(names, prefix, nextLevel) <==> Contributed(names, prefix, nextLevel, x)
    decreases names
  {
    if names == [] {
    } else {
      ListedContributed(names[..|names| - 1], prefix, nextLevel, x);
      ContributedSnoc(names, prefix, nextLevel, x);
      hide Cut, Contributed;
    }
  }

  /** The list is exactly the distinct contributions. */
  lemma ListedExactly(names: seq<string>, prefix: string, nextLevel: bool)
    ensures var out := Listed(names, prefix, nextLevel);
            && (forall x :: x in out <==> exists i :: 0 <= i < |names| && Cut(names[i], prefix, nextLevel) == Some(x))
            && (forall a, b :: 0 <= a < b < |out| ==> out[a] != out[b])
  {
    hide Listed, Cut;
    ListedDistinct(names, prefix, nextLevel);
    forall x ensures x in Listed(names, prefix, nextLevel) <==> Contributed(names, prefix, nextLevel, x) {
      ListedContributed(names, prefix, nextLevel, x);
    }
  }

  /** The list is in the order of first occurrence. */
  lemma {:induction false} ListedInOrder(names: seq<string>, prefix: string, nextLevel: bool,
                                         a: nat, b: nat, i: nat, j: nat)
    requires a < b < |Listed(names, prefix, nextLevel)|
    requires FirstAt(names, prefix, nextLevel, Listed(names, prefix, nextLevel)[a], i)
    requires FirstAt(names, prefix, nextLevel, Listed(names, prefix, nextLevel)[b], j)
    ensures i < j
    decreases names
  {
    var n := |names| - 1;
    var front := names[..n];
    var out0, out := Listed(front, prefix, nextLevel), Listed(names, prefix, nextLevel);
    ListedExactly(front, prefix, nextLevel);
    hide Cut;
    assert forall k :: 0 <= k < n ==> names[k] == front[k];
    if b < |out0| {
      ListedInOrder(front, prefix, nextLevel, a, b, i, j);
    }
  }

  // ---------- the loops of the source ----------

  lemma PrefixIsFoundFirst(s: string, prefix: string)
    ensures FindSub(s, prefix) == Some(0) <==> prefix <= s
  {
    if prefix <= s {
      FindSubIs(s, prefix, 0);
    }
    assert At(s, 0, prefix) <==> prefix <= s;
  }

  /** `EnumRecord` copies a record's name into the name buffer. */
  method EnumRecord(name: string) returns (buf: array<char>)
    requires NUL !in name
    ensures fresh(buf) && buf.Length == |name| + 1 && buf[..|name|] == name && buf[|name|] == NUL
  {
    buf := new char[|name| + 1];
    forall i | 0 <= i < |name| {
      buf[i] := name[i];
    }
    buf[|name|] := NUL;
  }

  lemma NameInBuffer(b: seq<char>, name: string, p: nat, e: nat)
    requires |b| == |name| + 1 && p <= e <= |name| && NUL !in name && b[e] == NUL
    requires forall i :: 0 <= i < e ==> b[i] == name[i]
    ensures CStr(b, p) == name[p..e]
  {
    StrEndIs(b, p, e);
  }

  /** The prefix test and the cut: a NUL is written behind the first dot of the next level. */
  method CutInPlace(buf: array<char>, ghost name: string, prefix: string, nextLevel: bool) returns (keep: bool)
    requires NUL !in name && buf.Length == |name| + 1 && buf[..|name|] == name && buf[|name|] == NUL
    modifies buf
    ensures keep == Cut(name, prefix, nextLevel).Some?
    ensures keep ==> CStr(buf[..], 0) == Cut(name, prefix, nextLevel).value
  {
    assert forall i :: 0 <= i < |name| ==> buf[i] == buf[..|name|][i];
    NameInBuffer(buf[..], name, 0, |name|);
    PrefixIsFoundFirst(name, prefix);
    hide CStr, FindSub, FindChar;
    if FindSub(CStr(buf[..], 0), prefix) != Some(0) {
      return false;
    }
    if nextLevel {
      if |CStr(buf[..], 0)| <= |prefix| {
        return false;
      }
      var p1 := |prefix|;
      NameInBuffer(buf[..], name, p1, |name|);
      assert name[p1..|name|] == name[p1..];
      var p2 := FindChar(CStr(buf[..], p1), '.');
      if p2.Some? {
        var end := p1 + p2.value + 1;
        buf[end] := NUL;
        NameInBuffer(buf[..], name, 0, end);
      }
    }
    keep := true;
  }

  /** The list, newest entry first, of names found so far. */
  ghost predicate Reversed(list: seq<string>, out: seq<string>) {
    |list| == |out| && forall k :: 0 <= k < |out| ==> list[k] == out[|out| - 1 - k]
  }

  lemma ReversedHolds(list: seq<string>, out: seq<string>, x: string)
    requires Reversed(list, out)
    ensures x in list <==> x in out
    ensures Reversed([x] + list, out + [x])
  {
    assert x in out ==> exists k :: 0 <= k < |out| && out[k] == x && list[|out| - 1 - k] == x;
    if x in list {
      var k :| 0 <= k < |list| && list[k] == x;
      assert out[|out| - 1 - k] == x;
    }
  }

  /** The search of the list for a name, from its end; 0 when it is not there. */
  method SearchList(list: seq<string>, name: string) returns (j: nat)
    ensures j == 0 <==> name !in list
  {
    j := |list|;
    while j > 0
      invariant j <= |list| && name !in list[j..]
    {
      if list[j - 1] == name {
        return;
      }
      j := j - 1;
      assert list[j..] == [list[j]] + list[j + 1..];
    }
    assert list[0..] == list;
  }

  lemma ListedNext(names: seq<string>, i: nat, prefix: string, nextLevel: bool)
    requires i < |names|
    ensures var out, last := Listed(names[..i], prefix, nextLevel), Cut(names[i], prefix, nextLevel);
            Listed(names[..i + 1], prefix, nextLevel) ==
            if last.None? || last.value in out then out else out + [last.value]
  {
    assert names[..i + 1][..i] == names[..i];
    hide Cut;
  }

  /** The list is popped into the output array from its end. */
  method Fill(list: seq<string>, ghost out: seq<string>) returns (val: array<string>)
    requires Reversed(list, out)
    ensures fresh(val) && val[..] == out
  {
    var rest, i := list, |list|;
    val := new string[i](_ => "");
    while i > 0
      invariant 0 <= i <= |list| == val.Length && rest == list[|list| - i..]
      invariant forall k :: i <= k < |list| ==> val[k] == out[k]
    {
      val[i - 1] := rest[0];
      rest, i := rest[1..], i - 1;
    }
  }

  /** `getParameterNames` on the records of the repository folder. */
  method GetParameterNames(records: seq<string>, parameterName: string, nextLevel: bool) returns (val: array<string>)
    requires forall i :: 0 <= i < |records| ==> NUL !in records[i]
    ensures fresh(val) && val[..] == Listed(records, parameterName, nextLevel)
  {
    var list := [];
    for i := 0 to |records|
      invariant Reversed(list, Listed(records[..i], parameterName, nextLevel))
    {
      ListedNext(records, i, parameterName, nextLevel);
      hide Listed, Cut, CStr;
      var recordName := EnumRecord(records[i]);
      var keep := CutInPlace(recordName, records[i], parameterName, nextLevel);
      if keep {
        var name := CStr(recordName[..], 0);
        var j := SearchList(list, name);
        ReversedHolds(list, Listed(records[..i], parameterName, nextLevel), name);
        if j == 0 {
          list := [name] + list;
        }
      }
    }
    assert records[..|records|] == records;
    val := Fill(list, Listed(records, parameterName, nextLevel));
  }
}
