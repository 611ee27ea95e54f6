/** The sec-ch-ua brand list: how the client writes it (profile.go) and how the fingerprint
    oracle normalises it (internal/fingerprint/reference.go). */
module SecChUa {
  import opened Prelude
  import opened GoInt
  import opened Text

  const SEPARATOR := ", "
  const GREASE := "GREASE"
  const GREASE_CHARS: seq<string> := [" ", "(", ":", "-", ".", "/", ")", ";", "=", "?", "_"]
  const GREASE_VERSIONS: seq<string> := ["8", "99", "24"]
  const ORDERS: seq<seq<nat>> :=
    [[0, 1, 2], [0, 2, 1], [1, 0, 2], [1, 2, 0], [2, 0, 1], [2, 1, 0]]

  predicate Digits(s: string) {
    s != "" && forall i :: 0 <= i < |s| ==> '0' <= s[i] <= '9'
  }

  function Value(s: string): nat
    requires forall i :: 0 <= i < |s| ==> '0' <= s[i] <= '9'
  {
    if s == "" then 0 else 10 * Value(s[..|s| - 1]) + (s[|s| - 1] - '0') as int
  }

  /** strconv.Atoi: an optional sign, then digits, within the range of a 64-bit int. */
  function Atoi(s: string): Option<Int> {
    var signed := s != "" && (s[0] == '-' || s[0] == '+');
    var body := if signed then s[1..] else s;
    if !Digits(body) then None
    else
      var v: int := if signed && s[0] == '-' then 0 - Value(body) else Value(body);
      if MIN_INT <= v <= MAX_INT then Some(v) else None
  }

  function Seed(major: string): (seed: Int)
    ensures seed >= 0
  {
    match Atoi(major)
    case Some(v) => if v < 0 then 0 else v
    case None => 0
  }

  function Entry(brand: string, version: string): string {
    "\"" + brand + "\"" + (";" + ("v=\"" + version + "\""))
  }

  /** Go's a % m, which takes the sign of a. */
  function Rem(a: int, m: nat): int
    requires m > 0
  {
    if a >= 0 then a % m else -((-a) % m)
  }

  /** Indexing with (seed + 1) % 11 is within bounds: the sum wraps around to a negative one for the
      largest int alone. */
  lemma IndexExactly(seed: Int)
    requires seed >= 0
    ensures Rem(Sum(seed, 1), 11) >= 0 <==> seed < MAX_INT
    ensures seed < MAX_INT ==> Rem(Sum(seed, 1), 11) == (seed + 1) % 11
  {
    assert -MIN_INT % 11 == 8;
  }

  function GreaseBrand(seed: nat): string
    requires seed < MAX_INT
  {
    "Not" + GREASE_CHARS[seed % 11] + "A" + GREASE_CHARS[(seed + 1) % 11] + "Brand"
  }

  function GreaseEntry(seed: nat): string
    requires seed < MAX_INT
  {
    Entry(GreaseBrand(seed), GREASE_VERSIONS[seed % 3])
  }

  predicate Permutation(o: seq<nat>) {
    && |o| == 3 && o[0] < 3 && o[1] < 3 && o[2] < 3
    && o[0] != o[1] && o[0] != o[2] && o[1] != o[2]
  }

  /** Order(seed)[i] is the slot entry i goes to. */
  function Order(seed: nat): (o: seq<nat>)
    ensures Permutation(o)
  {
    ORDERS[seed % 6]
  }

  /** The orders are the permutations in lexicographic order. */
  lemma OrderExactly(seed: nat)
    ensures var o := Order(seed); seed % 6 == 2 * o[0] + if o[1] > o[2] then 1 else 0
  {
  }

  function Entries(major: string, brand: string, version: string): seq<string>
    requires Seed(major) < MAX_INT
  {
    [GreaseEntry(Seed(major)), Entry("Chromium", major), Entry(brand, version)]
  }

  /** list holds entry i at slot order[i]. */
  predicate Arranged(entries: seq<string>, order: seq<nat>, list: seq<string>)
    requires |entries| == 3 && Permutation(order)
  {
    |list| == 3 && forall i :: 0 <= i < 3 ==> list[order[i]] == entries[i]
  }

  /** secChUa. None is a panic: an index out of range. */
  method Write(major: string, brand: string, version: string) returns (value: Option<string>)
    ensures value == None <==> Seed(major) == MAX_INT
    ensures Seed(major) < MAX_INT ==>
              exists list :: Arranged(Entries(major, brand, version), Order(Seed(major)), list)
                             && value == Some(Join(list, SEPARATOR))
  {
    IndexExactly(Seed(major));
    if Rem(Sum(Seed(major), 1), 11) < 0 {
      return None;
    }
    var entries := Entries(major, brand, version);
    var order := Order(Seed(major));
    var out := Place(entries, order);
    value := Some(Join(out, SEPARATOR));
  }

  lemma {:induction false} ValueOfDecimal(n: nat)
    ensures Digits(Decimal(n)) && Value(Decimal(n)) == n
  {
    var s := Decimal(n);
    if n < 10 {
      assert s[..0] == "";
    } else {
      ValueOfDecimal(n / 10);
      assert s[..|s| - 1] == Decimal(n / 10);
    }
  }

  /** The seed of a numeric version is the version, as long as it is an int. */
  lemma SeedOfDecimal(n: nat)
    ensures Seed(Decimal(n)) == if n <= MAX_INT then n else 0
  {
    ValueOfDecimal(n);
    assert Decimal(n)[0] in Decimal(n);
  }

  /** So a Chrome version of 9223372036854775807 is one that nothing is written for. */
  lemma LargestVersionPanics() returns (major: string)
    ensures Digits(major) && Seed(major) == MAX_INT
  {
    major := Decimal(MAX_INT);
    ValueOfDecimal(MAX_INT);
    SeedOfDecimal(MAX_INT);
  }

  /** The GREASE entries recorded for five versions. */
  lemma RecordedGrease()
    ensures GreaseEntry(156) == Entry("Not:A-Brand", "8")
    ensures GreaseEntry(145) == Entry("Not:A-Brand", "99")
    ensures GreaseEntry(122) == Entry("Not(A:Brand", "24")
    ensures GreaseEntry(124) == Entry("Not-A.Brand", "99")
    ensures GreaseEntry(125) == Entry("Not.A/Brand", "24")
  {
    ColonBrands();
    OtherBrands();
  }

  lemma ColonBrands()
    ensures GreaseBrand(156) == GreaseBrand(145) == "Not:A-Brand"
  {
  }

  lemma OtherBrands()
    ensures GreaseBrand(122) == "Not(A:Brand"
    ensures GreaseBrand(124) == "Not-A.Brand"
    ensures GreaseBrand(125) == "Not.A/Brand"
  {
  }

  lemma EntryText(brand: string, version: string)
    ensures Entry(brand, version) == "\"" + brand + "\";v=\"" + version + "\""
  {
    assert "\"" + ";" + "v=\"" == "\";v=\"";
  }

  /** The loop that fills the output slots. */
  method Place(entries: seq<string>, order: seq<nat>) returns (list: seq<string>)
    requires |entries| == 3 && Permutation(order)
    ensures Arranged(entries, order, list)
  {
    var out := new string[3](_ => "");
    for i := 0 to 3
      invariant forall k :: 0 <= k < i ==> out[order[k]] == entries[k]
    {
      out[order[i]] := entries[i];
    }
    list := out[..];
  }

  /** The list holds each of the three brands once, and nothing else. */
  lemma BrandsOnce(entries: seq<string>, order: seq<nat>, list: seq<string>)
    requires |entries| == 3 && Permutation(order) && Arranged(entries, order, list)
    ensures multiset(list) == multiset(entries)
  {
    assert list == [list[0], list[1], list[2]];
    assert entries == [entries[0], entries[1], entries[2]];
    assert multiset{list[0], list[1], list[2]} == multiset{list[order[0]], list[order[1]], list[order[2]]};
  }

  /** GREASE brand, GREASE version and order together repeat with period exactly 66. */
  lemma PeriodIs66(a: nat, b: nat)
    requires a < MAX_INT && b < MAX_INT
    ensures GreaseEntry(a) == GreaseEntry(b) && Order(a) == Order(b) <==> a % 66 == b % 66
  {
    if GreaseEntry(a) == GreaseEntry(b) && Order(a) == Order(b) {
      SameEntry(a, b);
      OrderExactly(a);
      OrderExactly(b);
      ChineseRemainder(a, b);
    }
    if a % 66 == b % 66 {
      ModFactors(a);
      ModFactors(b);
    }
  }

  lemma SameEntry(a: nat, b: nat)
    requires a < MAX_INT && b < MAX_INT && GreaseEntry(a) == GreaseEntry(b)
    ensures a % 11 == b % 11
  {
    GreaseEntryShape(a);
    GreaseEntryShape(b);
  }

  lemma GreaseEntryShape(a: nat)
    requires a < MAX_INT
    ensures |GreaseEntry(a)| > 4 && GreaseEntry(a)[4] == GREASE_CHARS[a % 11][0]
  {
  }

  /** Reducing modulo 66 first keeps the residue modulo a factor of 66. */
  lemma ModFactor(a: nat, m: nat, k: nat)
    requires 0 < m && m * k == 66
    ensures a % m == a % 66 % m
  {
    var q, r := a / 66, a % 66;
    var p := k * q + r / m;
    assert a == m * (k * q) + m * (r / m) + r % m == m * p + r % m;
    SameQuotient(a, m, p, r % m);
  }

  lemma SameQuotient(a: int, m: int, p: int, r: int)
    requires 0 <= r < m && a == m * p + r
    ensures a % m == r
  {
    var d := a / m - p;
    assert m * d == r - a % m;
    assert d >= 1 ==> m * d >= m;
    assert d <= -1 ==> m * d <= -m;
  }

  lemma ModFactors(a: nat)
    ensures a % 11 == a % 66 % 11 && a % 6 == a % 66 % 6 && a % 3 == a % 66 % 3
    ensures (a + 1) % 11 == (a % 66 + 1) % 11
  {
    ModFactor(a, 11, 6);
    ModFactor(a, 6, 11);
    ModFactor(a, 3, 22);
  }

  lemma ChineseRemainder(a: nat, b: nat)
    requires a % 11 == b % 11 && a % 6 == b % 6
    ensures a % 66 == b % 66
  {
    var p, q := a / 11 - b / 11, a / 6 - b / 6;
    assert a - b == 11 * p == 6 * q;
    assert p == 12 * p - 11 * p == 6 * (2 * p - q);
    var t := 2 * p - q;
    assert a == 66 * t + b;
    SameResidue(a, b, t);
  }

  lemma SameResidue(a: nat, b: nat, t: int)
    requires a == 66 * t + b
    ensures a % 66 == b % 66
  {
    assert a == 66 * (t + b / 66) + b % 66;
  }

  /** The brand text of one list element. */
  function BrandOf(part: string): string {
    TrimQuotes(BeforeSemicolon(TrimSpace(part)))
  }

  predicate IsGrease(part: string) {
    var brand := BrandOf(part);
    brand != "Chromium" && brand != "Google Chrome" && brand != "Microsoft Edge"
  }

  function NormalPart(part: string): string {
    if IsGrease(part) then GREASE else part
  }

  function NormalParts(parts: seq<string>): (r: seq<string>)
    ensures |r| == |parts|
    ensures forall i :: 0 <= i < |r| ==> r[i] == NormalPart(parts[i])
  {
    seq(|parts|, i requires 0 <= i < |parts| => NormalPart(parts[i]))
  }

  ghost function Normalized(s: string): string {
    if s == "" then "" else Join(NormalParts(Split(s, SEPARATOR)), SEPARATOR)
  }

  method Normalize(s: string) returns (r: string)
    ensures r == Normalized(s)
  {
    if s == "" {
      return "";
    }
    var parts := Split(s, SEPARATOR);
    ghost var split := parts;
    for i := 0 to |parts|
      invariant |parts| == |split|
      invariant forall k :: 0 <= k < i ==> parts[k] == NormalPart(split[k])
      invariant forall k :: i <= k < |parts| ==> parts[k] == split[k]
    {
      if IsGrease(parts[i]) {
        parts := parts[i := GREASE];
      }
    }
    assert parts == NormalParts(split);
    r := Join(parts, SEPARATOR);
  }

  lemma SeparatorUnbordered()
    ensures Unbordered(SEPARATOR)
  {
    assert SEPARATOR[1..] == " " && SEPARATOR[..1] == ",";
  }

  lemma {:induction false} TrimRightKeepsHead(s: string, drop: char -> bool)
    requires s != "" && !drop(s[0])
    ensures TrimRight(s, drop) != "" && TrimRight(s, drop)[0] == s[0]
    decreases |s|
  {
    if |s| > 1 {
      TrimRightKeepsHead(s[..|s| - 1], drop);
    }
  }

  /** A brand that quotes and semicolons do not touch is read back from its entry. */
  lemma EntryBrand(brand: string, version: string)
    requires brand != "" && ';' !in brand && brand[0] != '"' && brand[|brand| - 1] != '"'
    ensures BrandOf(Entry(brand, version)) == brand
  {
    var e := Entry(brand, version);
    var quoted := "\"" + brand + "\"";
    HeadAbsent(quoted, ";");
    FirstSeparator(quoted, ";", "v=\"" + version + "\"");
    assert e == quoted + ";" + ("v=\"" + version + "\"");
    assert e[..|quoted|] == quoted;
    TrimQuoted(brand);
  }

  /** Of the entries with such a brand exactly those of the three real ones are kept. */
  lemma KeptExactly(brand: string, version: string)
    requires brand != "" && ';' !in brand && brand[0] != '"' && brand[|brand| - 1] != '"'
    ensures NormalPart(Entry(brand, version)) ==
            if brand in {"Chromium", "Google Chrome", "Microsoft Edge"} then Entry(brand, version) else "GREASE"
  {
    EntryBrand(brand, version);
  }

  lemma TrimQuoted(brand: string)
    requires brand != "" && brand[0] != '"' && brand[|brand| - 1] != '"'
    ensures TrimQuotes("\"" + brand + "\"") == brand
  {
    var quote := (c: char) => c == '"';
    var open := brand + "\"";
    assert ("\"" + brand + "\"")[1..] == open;
    assert TrimLeft("\"" + brand + "\"", quote) == open;
    assert open[..|open| - 1] == brand;
    assert TrimRight(open, quote) == brand;
  }

  /** A GREASE entry is never taken for one of the three real brands. */
  lemma GreaseIsGrease(seed: nat)
    requires seed < MAX_INT
    ensures IsGrease(GreaseEntry(seed))
  {
    var e := GreaseEntry(seed);
    var i := Find(e, ";", 0);
    assert e[0] == '"' && e[1] == 'N';
    assert forall j: nat :: j < 2 ==> !At(e, ";", j) by {
      assert forall j: nat :: j < 2 ==> e[j..j + 1][0] == e[j] != ";"[0];
    }
    assert i >= 2;
    var b := BeforeSemicolon(e);
    var quote := (c: char) => c == '"';
    assert b[1..][0] == 'N';
    assert TrimLeft(b, quote) == b[1..];
    TrimRightKeepsHead(b[1..], quote);
    assert BrandOf(e)[0] == 'N';
  }

  predicate RealBrand(brand: string) {
    brand == "Google Chrome" || brand == "Microsoft Edge"
  }

  lemma EntryFree(brand: string, version: string)
    requires ',' !in brand && ',' !in version
    ensures !Contains(Entry(brand, version), SEPARATOR)
  {
    HeadAbsent(Entry(brand, version), SEPARATOR);
  }

  lemma EntriesFree(major: string, brand: string, version: string)
    requires ',' !in major && ',' !in version && RealBrand(brand) && Seed(major) < MAX_INT
    ensures Free(Entries(major, brand, version), SEPARATOR)
  {
    EntryFree(GreaseBrand(Seed(major)), GREASE_VERSIONS[Seed(major) % 3]);
    EntryFree("Chromium", major);
    EntryFree(brand, version);
  }

  lemma RealBrandIsNotGrease(brand: string, version: string)
    requires brand == "Chromium" || RealBrand(brand)
    ensures !IsGrease(Entry(brand, version)) && Entry(brand, version) != ""
  {
    EntryBrand(brand, version);
  }

  lemma {:induction false} NormalizedJoin(list: seq<string>)
    requires |list| >= 1 && Free(list, SEPARATOR) && list[0] != ""
    ensures Normalized(Join(list, SEPARATOR)) == Join(NormalParts(list), SEPARATOR)
  {
    SeparatorUnbordered();
    SplitJoin(list, SEPARATOR);
  }

  lemma NormalPartsArranged(entries: seq<string>, o: seq<nat>, list: seq<string>)
    requires |entries| == 3 && Permutation(o) && Arranged(entries, o, list)
    requires IsGrease(entries[0]) && !IsGrease(entries[1]) && !IsGrease(entries[2])
    ensures NormalParts(list) == list[o[0] := GREASE]
  {
    MapArranged(NormalPart, entries, o, list, GREASE, NormalParts(list));
  }

  lemma MapArranged(f: string -> string, entries: seq<string>, o: seq<nat>, list: seq<string>, mark: string,
                    mapped: seq<string>)
    requires |entries| == 3 && Permutation(o) && Arranged(entries, o, list)
    requires f(entries[0]) == mark && f(entries[1]) == entries[1] && f(entries[2]) == entries[2]
    requires |mapped| == 3 && forall i :: 0 <= i < 3 ==> mapped[i] == f(list[i])
    ensures mapped == list[o[0] := mark]
  {
    assert mapped[o[0]] == mark && mapped[o[1]] == list[o[1]] && mapped[o[2]] == list[o[2]];
  }

  lemma ArrangedFree(entries: seq<string>, o: seq<nat>, list: seq<string>, sep: string)
    requires |entries| == 3 && Permutation(o) && Arranged(entries, o, list)
    requires Free(entries, sep) && "" !in entries
    ensures Free(list, sep) && list[0] != ""
  {
    forall i | 0 <= i < 3
      ensures list[i] in entries
    {
      assert i == o[0] || i == o[1] || i == o[2];
    }
  }

  /** Normalising a list that holds the entries in some order replaces the GREASE slot only. */
  lemma {:induction false} NormalizedArranged(entries: seq<string>, o: seq<nat>, list: seq<string>)
    requires |entries| == 3 && Permutation(o) && Arranged(entries, o, list) && Free(entries, SEPARATOR)
    requires IsGrease(entries[0]) && !IsGrease(entries[1]) && !IsGrease(entries[2])
    requires "" !in entries
    ensures Normalized(Join(list, SEPARATOR)) == Join(list[o[0] := GREASE], SEPARATOR)
  {
    NormalPartsArranged(entries, o, list);
    ArrangedFree(entries, o, list, SEPARATOR);
    NormalizedJoin(list);
  }

  /** Normalising what Write wrote replaces exactly the GREASE slot. */
  lemma {:induction false} NormalizedWritten(major: string, brand: string, version: string, list: seq<string>)
    requires ',' !in major && ',' !in version && RealBrand(brand) && Seed(major) < MAX_INT
    requires Arranged(Entries(major, brand, version), Order(Seed(major)), list)
    ensures var slot := Order(Seed(major))[0];
            && list[slot] == GreaseEntry(Seed(major))
            && Normalized(Join(list, SEPARATOR)) == Join(list[slot := GREASE], SEPARATOR)
  {
    EntriesFree(major, brand, version);
    GreaseIsGrease(Seed(major));
    RealBrandIsNotGrease("Chromium", major);
    RealBrandIsNotGrease(brand, version);
    NormalizedArranged(Entries(major, brand, version), Order(Seed(major)), list);
  }

  /** Normalising twice is normalising once, on every string. */
  lemma {:induction false} NormalizedIdempotent(s: string)
    ensures Normalized(Normalized(s)) == Normalized(s)
  {
    if s != "" {
      var parts := Split(s, SEPARATOR);
      var normal := NormalParts(parts);
      SplitFree(s, SEPARATOR);
      HeadAbsent(GREASE, SEPARATOR);
      SeparatorUnbordered();
      SplitJoin(normal, SEPARATOR);
      assert NormalParts(normal) == normal;
    }
  }
}
