/** Go's strings.Split, strings.Join, strings.TrimSpace and strings.Trim on
    character sequences, with the inversion laws the header round trips rest on. */
module Text {

  /** sep occurs in s at index i. */
  predicate At(s: string, sep: string, i: nat) {
    i + |sep| <= |s| && s[i..i + |sep|] == sep
  }

  ghost predicate Contains(s: string, sep: string) {
    exists i: nat :: At(s, sep, i)
  }

  /** Least index of sep in s at or after from, or |s| + 1 when there is none. */
  function Find(s: string, sep: string, from: nat): (i: nat)
    requires from <= |s| + 1
    ensures from <= i <= |s| + 1
    ensures i <= |s| ==> At(s, sep, i)
    ensures forall j: nat :: from <= j < i ==> !At(s, sep, j)
    decreases |s| + 1 - from
  {
    if from == |s| + 1 || At(s, sep, from) then from else Find(s, sep, from + 1)
  }

  /** strings.Split(s, sep) for a nonempty separator. */
  function Split(s: string, sep: string): (parts: seq<string>)
    requires sep != ""
    ensures |parts| >= 1
    decreases |s|
  {
    var i := Find(s, sep, 0);
    if i > |s| then [s] else [s[..i]] + Split(s[i + |sep|..], sep)
  }

  /** strings.Join(parts, sep). */
  function Join(parts: seq<string>, sep: string): string {
    if |parts| == 0 then ""
    else if |parts| == 1 then parts[0]
    else parts[0] + sep + Join(parts[1..], sep)
  }

  /** No proper suffix of sep is a prefix of it, so an occurrence of sep in part + sep that
      starts inside part lies inside part. */
  predicate Unbordered(sep: string) {
    sep != "" && forall k :: 0 < k < |sep| ==> sep[k..] != sep[..|sep| - k]
  }

  ghost predicate Free(parts: seq<string>, sep: string) {
    forall i :: 0 <= i < |parts| ==> !Contains(parts[i], sep)
  }

  lemma FindUnique(s: string, sep: string, i: nat)
    requires At(s, sep, i) && forall j: nat :: j < i ==> !At(s, sep, j)
    ensures Find(s, sep, 0) == i
  {
  }

  /** A separator of part + sep + rest that starts inside part lies inside part, or makes a
      suffix of sep a prefix of it. */
  lemma EarlySeparator(part: string, sep: string, rest: string, j: nat)
    requires j < |part| && At(part + sep + rest, sep, j)
    ensures j + |sep| <= |part| ==> At(part, sep, j)
    ensures j + |sep| > |part| ==> sep[|part| - j..] == sep[..j + |sep| - |part|]
  {
    var s := part + sep + rest;
    if j + |sep| <= |part| {
      assert part[j..j + |sep|] == s[j..j + |sep|];
    } else {
      assert sep[|part| - j..] == s[|part|..j + |sep|];
    }
  }

  /** The first separator of part + sep + rest is the one after part. */
  lemma FirstSeparator(part: string, sep: string, rest: string)
    requires Unbordered(sep) && !Contains(part, sep)
    ensures Find(part + sep + rest, sep, 0) == |part|
  {
    var s := part + sep + rest;
    assert s[|part|..|part| + |sep|] == sep;
    forall j: nat | j < |part|
      ensures !At(s, sep, j)
    {
      if At(s, sep, j) {
        EarlySeparator(part, sep, rest, j);
      }
    }
    FindUnique(s, sep, |part|);
  }

  /** Splitting at the separator after the first part. */
  lemma SplitHead(part: string, sep: string, rest: string)
    requires Unbordered(sep) && !Contains(part, sep)
    ensures Split(part + sep + rest, sep) == [part] + Split(rest, sep)
  {
    var s := part + sep + rest;
    FirstSeparator(part, sep, rest);
    assert s[..|part|] == part;
    assert s[|part| + |sep|..] == rest;
  }

  /** Split undoes Join on any nonempty list of separator-free parts. */
  lemma {:induction false} SplitJoin(parts: seq<string>, sep: string)
    requires Unbordered(sep) && |parts| >= 1 && Free(parts, sep)
    ensures Split(Join(parts, sep), sep) == parts
  {
    if |parts| > 1 {
      SplitHead(parts[0], sep, Join(parts[1..], sep));
      SplitJoin(parts[1..], sep);
      assert parts == [parts[0]] + parts[1..];
    }
  }

  /** Join undoes Split on every string. */
  lemma {:induction false} JoinSplit(s: string, sep: string)
    requires sep != ""
    ensures Join(Split(s, sep), sep) == s
    decreases |s|
  {
    var i := Find(s, sep, 0);
    if i <= |s| {
      JoinSplit(s[i + |sep|..], sep);
      var parts := Split(s, sep);
      assert parts[1..] == Split(s[i + |sep|..], sep);
      assert s == s[..i] + sep + s[i + |sep|..];
    }
  }

  /** Nothing before the first separator holds one. */
  lemma BeforeFirst(s: string, sep: string, i: nat)
    requires i <= |s| && forall j: nat :: j < i ==> !At(s, sep, j)
    requires sep != ""
    ensures !Contains(s[..i], sep)
  {
    if Contains(s[..i], sep) {
      var j: nat :| At(s[..i], sep, j);
      assert s[j..j + |sep|] == s[..i][j..j + |sep|];
      assert At(s, sep, j);
    }
  }

  /** The pieces of a split hold no separator. */
  lemma {:induction false} SplitFree(s: string, sep: string)
    requires sep != ""
    ensures Free(Split(s, sep), sep)
    decreases |s|
  {
    var i := Find(s, sep, 0);
    if i <= |s| {
      SplitFree(s[i + |sep|..], sep);
      BeforeFirst(s, sep, i);
    } else {
      assert forall j: nat :: !At(s, sep, j);
    }
  }

  lemma OccurrenceHead(s: string, sep: string, i: nat)
    requires sep != "" && At(s, sep, i)
    ensures sep[0] in s
  {
    assert s[i] == s[i..i + |sep|][0];
  }

  lemma HeadAbsent(s: string, sep: string)
    requires sep != "" && sep[0] !in s
    ensures !Contains(s, sep)
  {
    if Contains(s, sep) {
      var i: nat :| At(s, sep, i);
      OccurrenceHead(s, sep, i);
    }
  }

  /** unicode.IsSpace. */
  predicate Space(c: char) {
    || c == ' ' || '\t' <= c <= '\r' || c == '\U{85}' || c == '\U{A0}' || c == '\U{1680}'
    || '\U{2000}' <= c <= '\U{200A}' || c == '\U{2028}' || c == '\U{2029}' || c == '\U{202F}'
    || c == '\U{205F}' || c == '\U{3000}'
  }

  function TrimLeft(s: string, drop: char -> bool): (r: string) {
    if s != "" && drop(s[0]) then TrimLeft(s[1..], drop) else s
  }

  function TrimRight(s: string, drop: char -> bool): (r: string) {
    if s != "" && drop(s[|s| - 1]) then TrimRight(s[..|s| - 1], drop) else s
  }

  /** Trimming cuts off exactly the longest ends of dropped characters. */
  lemma {:induction false} TrimmedExactly(s: string, drop: char -> bool) returns (i: nat, j: nat)
    ensures i <= j <= |s| && TrimRight(TrimLeft(s, drop), drop) == s[i..j]
    ensures forall k :: 0 <= k < i || j <= k < |s| ==> drop(s[k])
    ensures i < j ==> !drop(s[i]) && !drop(s[j - 1])
    decreases |s|
  {
    if s != "" && drop(s[0]) {
      i, j := TrimmedExactly(s[1..], drop);
      i, j := i + 1, j + 1;
    } else {
      i := 0;
      j := TrimmedRight(s, drop);
    }
  }

  lemma {:induction false} TrimmedRight(s: string, drop: char -> bool) returns (j: nat)
    ensures j <= |s| && TrimRight(s, drop) == s[..j]
    ensures forall k :: j <= k < |s| ==> drop(s[k])
    ensures j > 0 ==> !drop(s[j - 1])
    decreases |s|
  {
    j := |s|;
    if s != "" && drop(s[|s| - 1]) {
      j := TrimmedRight(s[..|s| - 1], drop);
    }
  }

  /** strings.TrimSpace. */
  function TrimSpace(s: string): string {
    TrimRight(TrimLeft(s, Space), Space)
  }

  /** strings.Trim(s, "\""). */
  function TrimQuotes(s: string): string {
    TrimRight(TrimLeft(s, c => c == '"'), c => c == '"')
  }

  /** strings.SplitN(s, ";", 2)[0]: everything before the first semicolon. */
  function BeforeSemicolon(s: string): string {
    var i := Find(s, ";", 0);
    if i > |s| then s else s[..i]
  }

  /** n in decimal. */
  function Decimal(n: nat): string {
    if n < 10 then [('0' as int + n) as char] else Decimal(n / 10) + [('0' as int + n % 10) as char]
  }

  /** The verb %d. */
  function Signed(n: int): string {
    if n < 0 then "-" + Decimal(-n) else Decimal(n)
  }
}
