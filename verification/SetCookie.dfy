/** Set-Cookie across the backend boundary: the std backend joins the values of one response
    into a single string (backend_std.go), RoundTrip splits them again (roundtripper.go).
    Section 3 of RFC 6265 asks that Set-Cookie fields are not folded into one.

    Header names are lower-cased strings; net/http's canonical spelling is a bijection on them. */
module SetCookie {
  import opened Text

  type Name = string

  const SET_COOKIE: Name := "set-cookie"
  const NEWLINE := "\n"

  function NonEmpty(values: seq<string>): (r: seq<string>) {
    if |values| == 0 then []
    else (if values[0] == "" then [] else [values[0]]) + NonEmpty(values[1..])
  }

  ghost predicate AllNonEmpty(values: seq<string>) {
    forall i :: 0 <= i < |values| ==> values[i] != ""
  }

  /** The Set-Cookie fields RoundTrip hands out for a joined value. */
  ghost function Restored(joined: string): seq<string> {
    if Contains(joined, NEWLINE) then NonEmpty(Split(joined, NEWLINE)) else [joined]
  }

  /** The header map the backend hands out for a response. */
  ghost function Flattened(h: map<Name, seq<string>>): map<Name, string> {
    map k | k in h && (k == SET_COOKIE || |h[k]| > 0) ::
      if k == SET_COOKIE then Join(h[k], NEWLINE) else h[k][0]
  }

  /** The header map RoundTrip hands out for the backend's map. */
  ghost function Unflattened(r: map<Name, string>): map<Name, seq<string>> {
    map k | k in r && (k == SET_COOKIE ==> Restored(r[k]) != []) ::
      if k == SET_COOKIE then Restored(r[k]) else [r[k]]
  }

  method FlattenHeaders(h: map<Name, seq<string>>) returns (r: map<Name, string>)
    ensures r == Flattened(h)
  {
    r := map[];
    var todo := h.Keys;
    while todo != {}
      invariant todo <= h.Keys
      invariant r == Flattened(map k | k in h && k !in todo :: h[k])
      decreases todo
    {
      var k :| k in todo;
      todo := todo - {k};
      if k == SET_COOKIE {
        r := r[SET_COOKIE := Join(h[k], NEWLINE)];
      } else if |h[k]| > 0 {
        r := r[k := h[k][0]];
      }
    }
    assert h == map k | k in h && k !in todo :: h[k];
  }

  /** strings.Contains(s, sep). */
  method HasSeparator(s: string, sep: string) returns (found: bool)
    requires sep != ""
    ensures found <==> Contains(s, sep)
  {
    var i := Find(s, sep, 0);
    found := i <= |s|;
  }

  ghost function WithCookies(others: map<Name, seq<string>>, cookies: seq<string>): map<Name, seq<string>> {
    if cookies == [] then others else others[SET_COOKIE := cookies]
  }

  lemma AddOne(others: map<Name, seq<string>>, added: seq<string>, piece: string)
    requires SET_COOKIE !in others
    ensures var h := WithCookies(others, added);
            h[SET_COOKIE := Field(h, SET_COOKIE) + [piece]] == WithCookies(others, added + [piece])
  {
  }

  lemma NonEmptyNext(parts: seq<string>, i: nat, added: seq<string>)
    ensures i < |parts| ==>
              added + NonEmpty(parts[i..]) ==
              (if parts[i] == "" then added else added + [parts[i]]) + NonEmpty(parts[i + 1..])
  {
    assert i < |parts| ==> parts[i..][1..] == parts[i + 1..];
  }

  /** The Add loop: the nonempty pieces, in order, under a deleted Set-Cookie key. */
  method AddPieces(others: map<Name, seq<string>>, parts: seq<string>) returns (h: map<Name, seq<string>>)
    requires SET_COOKIE !in others
    ensures h == WithCookies(others, NonEmpty(parts))
  {
    h := others;
    ghost var added: seq<string> := [];
    for i := 0 to |parts|
      invariant NonEmpty(parts) == added + NonEmpty(parts[i..])
      invariant h == WithCookies(others, added)
    {
      NonEmptyNext(parts, i, added);
      if parts[i] != "" {
        AddOne(others, added, parts[i]);
        h := h[SET_COOKIE := Field(h, SET_COOKIE) + [parts[i]]];
        added := added + [parts[i]];
      }
    }
    assert NonEmpty(parts[|parts|..]) == [] && added + [] == added;
  }

  method RestoreHeaders(r: map<Name, string>) returns (h: map<Name, seq<string>>)
    ensures h == Unflattened(r)
  {
    h := map[];
    var todo := r.Keys;
    while todo != {}
      invariant todo <= r.Keys
      invariant h == map k | k in r && k !in todo :: [r[k]]
      decreases todo
    {
      var k :| k in todo;
      todo := todo - {k};
      h := h[k := [r[k]]];
    }
    if SET_COOKIE in r {
      var joined := HasSeparator(r[SET_COOKIE], NEWLINE);
      if joined {
        h := AddPieces(h - {SET_COOKIE}, Split(r[SET_COOKIE], NEWLINE));
      }
    }
  }

  function Field(h: map<Name, seq<string>>, k: Name): seq<string> {
    if k in h then h[k] else []
  }

  lemma {:induction false} NonEmptyKeeps(values: seq<string>)
    requires AllNonEmpty(values)
    ensures NonEmpty(values) == values
  {
    if |values| != 0 {
      NonEmptyKeeps(values[1..]);
    }
  }

  lemma {:induction false} NonEmptyIsNonEmpty(values: seq<string>)
    ensures AllNonEmpty(NonEmpty(values))
  {
    if |values| != 0 {
      NonEmptyIsNonEmpty(values[1..]);
    }
  }

  lemma {:induction false} NonEmptyFree(values: seq<string>)
    requires Free(values, NEWLINE)
    ensures Free(NonEmpty(values), NEWLINE)
  {
    if |values| != 0 {
      NonEmptyFree(values[1..]);
    }
  }

  /** Joining two or more values leaves a newline to split at. */
  lemma JoinedHasNewline(values: seq<string>)
    requires |values| >= 2
    ensures Contains(Join(values, NEWLINE), NEWLINE)
  {
    assert At(Join(values, NEWLINE), NEWLINE, |values[0]|);
  }

  /** No value holds a newline, and there is one value, or there are several and none is empty. */
  ghost predicate Survives(values: seq<string>) {
    Free(values, NEWLINE) && (|values| == 1 || (|values| >= 2 && AllNonEmpty(values)))
  }

  /** The values come back as the same list exactly on that condition. */
  lemma CookiesRoundTrip(values: seq<string>)
    ensures Restored(Join(values, NEWLINE)) == values <==> Survives(values)
  {
    var joined := Join(values, NEWLINE);
    SplitFree(joined, NEWLINE);
    NonEmptyFree(Split(joined, NEWLINE));
    NonEmptyIsNonEmpty(Split(joined, NEWLINE));
    if |values| >= 2 {
      JoinedHasNewline(values);
      if Free(values, NEWLINE) && AllNonEmpty(values) {
        SplitJoin(values, NEWLINE);
        NonEmptyKeeps(values);
      }
    }
  }

  /** Any response's headers after the backend and RoundTrip: its Set-Cookie fields are the same list
      exactly when there is none or they survive, and every other field keeps its first value. */
  lemma HeadersRoundTrip(h: map<Name, seq<string>>)
    ensures var out := Unflattened(Flattened(h));
            && (Field(out, SET_COOKIE) == Field(h, SET_COOKIE) <==> SET_COOKIE !in h || Survives(h[SET_COOKIE]))
            && forall k :: k != SET_COOKIE ==>
                 Field(out, k) == if k in h && |h[k]| > 0 then [h[k][0]] else []
  {
    if SET_COOKIE in h {
      CookiesRoundTrip(h[SET_COOKIE]);
    }
  }
}
