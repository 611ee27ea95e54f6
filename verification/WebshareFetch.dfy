/** How a Webshare proxy list comes about: configuration defaults and country codes
    (proxypool/webshare_country.go), paging (proxypool/webshare_fetch.go) and URL building
    (proxypool/webshare.go). The API is a script of page outcomes. */
module WebshareFetch {
  import opened Prelude
  import opened Sequences
  import opened Text

  datatype Mode = Backbone | Rotating | Direct

  /** Durations in nanoseconds. */
  datatype Config = Config(countries: seq<string>, mode: Mode, pageSize: int, refreshInterval: int, refreshMinGap: int)

  datatype Proxy = Proxy(address: string, port: int, username: string, password: string)

  datatype Page = Page(results: seq<Proxy>, next: string)

  /** Outcome of the i-th page request. */
  type Pages = nat -> Result<Page, string>

  const MAX_PAGES := 50
  const GATEWAY := "p.webshare.io"
  const DEFAULT_INTERVAL := 900_000_000_000
  const DEFAULT_MIN_GAP := 60_000_000_000

  predicate IsCountry(c: string) {
    |c| == 2 && 'A' <= c[0] <= 'Z' && 'A' <= c[1] <= 'Z'
  }

  predicate AllCountries(s: seq<string>) {
    forall i :: 0 <= i < |s| ==> IsCountry(s[i])
  }

  ghost predicate FirstInvalid(s: seq<string>, c: string) {
    exists i :: 0 <= i < |s| && s[i] == c && !IsCountry(c) && AllCountries(s[..i])
  }

  lemma FirstInvalidAt(s: seq<string>, i: nat)
    requires i < |s| && AllCountries(s[..i]) && !IsCountry(s[i])
    ensures FirstInvalid(s, s[i]) && !AllCountries(s)
  {
  }

  lemma AllCountriesNext(s: seq<string>, i: nat)
    requires i < |s| && AllCountries(s[..i]) && IsCountry(s[i])
    ensures AllCountries(s[..i + 1])
  {
  }

  /** The first occurrences of s, in order. */
  function Deduped(s: seq<string>): (r: seq<string>)
    ensures forall x :: x in r <==> x in s
    ensures forall i, j :: 0 <= i < j < |r| ==> r[i] != r[j]
    ensures |s| > 0 ==> |r| > 0
  {
    if |s| == 0 then []
    else
      var r := Deduped(s[..|s| - 1]);
      var last := s[|s| - 1];
      if last in s[..|s| - 1] then r else r + [last]
  }

  lemma IndexInPrefix(s: seq<string>, n: nat, x: string)
    requires n <= |s| && x in s[..n]
    ensures x in s && IndexOf(s, x) == IndexOf(s[..n], x) < n
  {
    var k, l := IndexOf(s, x), IndexOf(s[..n], x);
    assert s[l] == x;
    assert k < n ==> s[..n][k] == x;
  }

  lemma LastIsFirst(s: seq<string>, n: nat)
    requires n < |s| && s[n] !in s[..n]
    ensures IndexOf(s, s[n]) == n
  {
    assert forall k :: 0 <= k < n ==> s[..n][k] == s[k];
  }

  /** Removing duplicates keeps the order of first appearance. */
  lemma {:induction false} DedupedInOrder(s: seq<string>, i: nat, j: nat)
    requires i < j < |Deduped(s)|
    ensures IndexOf(s, Deduped(s)[i]) < IndexOf(s, Deduped(s)[j])
  {
    var n := |s| - 1;
    var r := Deduped(s[..n]);
    IndexInPrefix(s, n, r[i]);
    if j < |r| {
      DedupedInOrder(s[..n], i, j);
      IndexInPrefix(s, n, r[j]);
    } else {
      LastIsFirst(s, n);
    }
  }

  lemma DedupedNext(s: seq<string>, n: nat)
    requires n < |s|
    ensures s[..n + 1] == s[..n] + [s[n]]
    ensures Deduped(s[..n + 1]) == if s[n] in s[..n] then Deduped(s[..n]) else Deduped(s[..n]) + [s[n]]
  {
    assert s[..n + 1][..n] == s[..n];
  }

  lemma DedupedCountries(countries: seq<string>)
    requires AllCountries(countries)
    ensures AllCountries(Deduped(countries))
  {
    var r := Deduped(countries);
    forall i | 0 <= i < |r|
      ensures IsCountry(r[i])
    {
      assert r[i] in countries;
    }
  }

  method ValidateAndDedup(countries: seq<string>) returns (r: Result<seq<string>, string>)
    ensures r.Ok? <==> AllCountries(countries)
    ensures r.Ok? ==> r.value == Deduped(countries) && AllCountries(r.value)
    ensures r.Err? ==> FirstInvalid(countries, r.error)
  {
    var seen: set<string> := {};
    var result: seq<string> := [];
    for i := 0 to |countries|
      invariant AllCountries(countries[..i])
      invariant forall x :: x in seen <==> x in countries[..i]
      invariant result == Deduped(countries[..i])
    {
      var cc := countries[i];
      if !IsCountry(cc) {
        FirstInvalidAt(countries, i);
        return Err(cc);
      }
      AllCountriesNext(countries, i);
      DedupedNext(countries, i);
      if cc !in seen {
        seen := seen + {cc};
        result := result + [cc];
      }
    }
    assert countries[..|countries|] == countries;
    DedupedCountries(countries);
    r := Ok(result);
  }

  /** What a configuration looks like once defaults are applied. */
  predicate Ready(c: Config) {
    && |c.countries| > 0 && AllCountries(c.countries)
    && (forall i, j :: 0 <= i < j < |c.countries| ==> c.countries[i] != c.countries[j])
    && c.pageSize > 0 && c.refreshInterval != 0 && c.refreshMinGap > 0
  }

  method ApplyConfigDefaults(c: Config) returns (r: Result<Config, string>)
    ensures r.Ok? <==> AllCountries(c.countries)
    ensures r.Ok? ==>
              && Ready(r.value) && r.value.mode == c.mode
              && r.value.countries == (if |c.countries| == 0 then ["US"] else Deduped(c.countries))
              && r.value.pageSize == (if c.pageSize <= 0 then 100 else c.pageSize)
              && r.value.refreshInterval == (if c.refreshInterval == 0 then DEFAULT_INTERVAL else c.refreshInterval)
              && r.value.refreshMinGap == (if c.refreshMinGap <= 0 then DEFAULT_MIN_GAP else c.refreshMinGap)
    ensures r.Err? ==> FirstInvalid(c.countries, r.error)
  {
    var cfg := c;
    if |cfg.countries| == 0 {
      cfg := cfg.(countries := ["US"]);
    } else {
      var deduped := ValidateAndDedup(cfg.countries);
      if deduped.Err? {
        return Err(deduped.error);
      }
      cfg := cfg.(countries := deduped.value);
    }
    if cfg.pageSize <= 0 {
      cfg := cfg.(pageSize := 100);
    }
    if cfg.refreshInterval == 0 {
      cfg := cfg.(refreshInterval := DEFAULT_INTERVAL);
    }
    if cfg.refreshMinGap <= 0 {
      cfg := cfg.(refreshMinGap := DEFAULT_MIN_GAP);
    }
    r := Ok(cfg);
  }

  /** Everything the first n page requests returned. */
  function Collected(pages: Pages, n: nat): seq<Proxy> {
    if n == 0 then []
    else Collected(pages, n - 1) + if pages(n - 1).Ok? then pages(n - 1).value.results else []
  }

  predicate HasNext(pages: Pages, i: nat) {
    pages(i).Ok? && pages(i).value.next != ""
  }

  /** n is the number of pages a complete fetch reads: up to the first without a successor, or 50. */
  ghost predicate Complete(pages: Pages, n: nat) {
    && 0 < n <= MAX_PAGES
    && Continues(pages, n - 1) && pages(n - 1).Ok?
    && (n == MAX_PAGES || !HasNext(pages, n - 1))
  }

  /** The error fetchAllProxies reports for an empty result. */
  const NO_PROXIES := "webshare returned 0 proxies"

  const NO_CREDENTIALS := "webshare returned 0 proxies for rotating credentials"

  /** The first n pages arrive and each names a next one. */
  ghost predicate Continues(pages: Pages, n: nat) {
    forall i: nat :: i < n ==> HasNext(pages, i)
  }

  /** What fetching all pages yields: everything they hold, or the error that ends the fetch. */
  ghost predicate Paged(pages: Pages, r: Result<seq<Proxy>, string>) {
    match r
    case Ok(all) => |all| > 0 && exists n: nat :: Complete(pages, n) && all == Collected(pages, n)
    case Err(e) =>
      || (exists n: nat :: Complete(pages, n) && Collected(pages, n) == [] && e == NO_PROXIES)
      || (exists n: nat :: n < MAX_PAGES && pages(n) == Err(e) && Continues(pages, n))
  }

  lemma CompleteOrBroken(pages: Pages, m: nat, n: nat)
    requires Complete(pages, m) && n < MAX_PAGES && Continues(pages, n)
    ensures pages(n).Ok?
  {
    var a: nat := m - 1;
    assert a < n ==> HasNext(pages, a);
    assert n < a ==> HasNext(pages, n);
  }

  lemma BrokenUnique(pages: Pages, m: nat, n: nat)
    requires Continues(pages, m) && Continues(pages, n) && pages(m).Err? && pages(n).Err?
    ensures m == n
  {
    assert m < n ==> HasNext(pages, m);
    assert n < m ==> HasNext(pages, n);
  }

  /** The pages alone decide the outcome. */
  lemma PagedUnique(pages: Pages, r: Result<seq<Proxy>, string>, q: Result<seq<Proxy>, string>)
    requires Paged(pages, r) && Paged(pages, q)
    ensures r == q
  {
    var m, complete := PagedAt(pages, r);
    var n, complete' := PagedAt(pages, q);
    if complete && !complete' {
      CompleteOrBroken(pages, m, n);
    } else if !complete && complete' {
      CompleteOrBroken(pages, n, m);
    } else if !complete {
      BrokenUnique(pages, m, n);
    }
  }

  /** Where a fetch ends, and whether it read to the end. */
  lemma PagedAt(pages: Pages, r: Result<seq<Proxy>, string>) returns (n: nat, complete: bool)
    requires Paged(pages, r)
    ensures complete ==> Complete(pages, n) && r == Gathered(Collected(pages, n))
    ensures !complete ==> n < MAX_PAGES && Continues(pages, n) && r.Err? && pages(n) == Err(r.error)
  {
    if k: nat :| Complete(pages, k) && r == Gathered(Collected(pages, k)) {
      n, complete := k, true;
    } else {
      n :| n < MAX_PAGES && pages(n) == Err(r.error) && Continues(pages, n);
      complete := false;
    }
  }

  function Gathered(all: seq<Proxy>): Result<seq<Proxy>, string> {
    if |all| == 0 then Err(NO_PROXIES) else Ok(all)
  }

  method FetchAllProxies(pages: Pages) returns (r: Result<seq<Proxy>, string>)
    ensures Paged(pages, r)
  {
    var all: seq<Proxy> := [];
    var n: nat := 0;
    while n < MAX_PAGES
      invariant n <= MAX_PAGES
      invariant Continues(pages, n) && (n > 0 ==> HasNext(pages, n - 1))
      invariant all == Collected(pages, n)
    {
      var page := pages(n);
      if page.Err? {
        return Err(page.error);
      }
      all := all + page.value.results;
      n := n + 1;
      if page.value.next == "" {
        break;
      }
    }
    assert Complete(pages, n);
    r := if |all| == 0 then Err(NO_PROXIES) else Ok(all);
  }

  function Suffix(cc: string, mode: Mode): string {
    if mode == Rotating then "-" + cc + "-rotate" else "-" + cc
  }

  function ProxyUrl(p: Proxy, cc: string, mode: Mode): string {
    var host := if p.address == "" then GATEWAY else p.address;
    "http://" + p.username + Suffix(cc, mode) + ":" + p.password + "@" + host + ":" + Signed(p.port)
  }

  lemma {:induction false} DecimalPlain(n: nat)
    ensures forall c :: c in Decimal(n) ==> '0' <= c <= '9'
  {
    if n >= 10 {
      DecimalPlain(n / 10);
    }
  }

  lemma SplitPair(a: string, b: string, sep: char)
    ensures sep !in a && sep !in b ==> Split(a + [sep] + b, [sep]) == [a, b]
  {
    if sep !in a && sep !in b {
      HeadAbsent(a, [sep]);
      HeadAbsent(b, [sep]);
      SplitJoin([a, b], [sep]);
      assert [a, b][1..] == [b];
    }
  }

  predicate Plain(s: string) {
    ':' !in s && '@' !in s
  }

  /** After the scheme url splits at "@" and ":" into these. */
  predicate ReadsAs(url: string, user: string, password: string, host: string, port: string) {
    && |url| >= 7 && url[..7] == "http://"
    && var halves := Split(url[7..], "@");
       |halves| == 2 && Split(halves[0], ":") == [user, password] && Split(halves[1], ":") == [host, port]
  }

  lemma ReadsBack(user: string, password: string, host: string, port: string)
    requires Plain(user) && Plain(password) && Plain(host) && Plain(port)
    ensures ReadsAs("http://" + ((user + ":" + password) + "@" + (host + ":" + port)), user, password, host, port)
  {
    SplitPair(user, password, ':');
    SplitPair(host, port, ':');
    SplitPair(user + ":" + password, host + ":" + port, '@');
  }

  /** From a proxy's URL one reads back its credentials with the country, its host or else the gateway, and
      its port. */
  lemma UrlReadBack(p: Proxy, cc: string, mode: Mode)
    requires Plain(p.username) && Plain(p.password) && Plain(p.address) && Plain(cc)
    ensures ReadsAs(ProxyUrl(p, cc, mode),
                    p.username + "-" + cc + (if mode == Rotating then "-rotate" else ""), p.password,
                    if p.address == "" then "p.webshare.io" else p.address, Signed(p.port))
  {
    var user := p.username + "-" + cc + (if mode == Rotating then "-rotate" else "");
    DecimalPlain(if p.port < 0 then -p.port else p.port);
    UserText(p.username, cc, mode);
    UrlText(p.username, Suffix(cc, mode), p.password, if p.address == "" then GATEWAY else p.address, Signed(p.port));
    ReadsBack(user, p.password, if p.address == "" then GATEWAY else p.address, Signed(p.port));
  }

  lemma UserText(username: string, cc: string, mode: Mode)
    ensures username + Suffix(cc, mode) == username + "-" + cc + (if mode == Rotating then "-rotate" else "")
  {
  }

  lemma UrlText(username: string, suffix: string, password: string, host: string, port: string)
    ensures "http://" + username + suffix + ":" + password + "@" + host + ":" + port ==
            "http://" + ((username + suffix + ":" + password) + "@" + (host + ":" + port))
  {
    var user := username + suffix + ":" + password;
    assert "http://" + username + suffix + ":" + password == "http://" + user;
  }

  /** One proxy's URLs, one per country. */
  function Row(p: Proxy, countries: seq<string>, mode: Mode): (r: seq<string>)
    ensures |r| == |countries| && forall j :: 0 <= j < |r| ==> r[j] == ProxyUrl(p, countries[j], mode)
  {
    seq(|countries|, j requires 0 <= j < |countries| => ProxyUrl(p, countries[j], mode))
  }

  function Rows(proxies: seq<Proxy>, countries: seq<string>, mode: Mode): (r: seq<seq<string>>)
    ensures |r| == |proxies| && forall i :: 0 <= i < |r| ==> r[i] == Row(proxies[i], countries, mode)
  {
    seq(|proxies|, i requires 0 <= i < |proxies| => Row(proxies[i], countries, mode))
  }

  /** All rows, one after the other. */
  function Flatten<T>(rows: seq<seq<T>>): seq<T> {
    if |rows| == 0 then [] else Flatten(rows[..|rows| - 1]) + rows[|rows| - 1]
  }

  function Injected(proxies: seq<Proxy>, countries: seq<string>, mode: Mode): seq<string> {
    Flatten(Rows(proxies, countries, mode))
  }

  /** The inner loop: append one proxy's URLs. */
  method AppendRow(urls: seq<string>, p: Proxy, countries: seq<string>, mode: Mode) returns (r: seq<string>)
    ensures r == urls + Row(p, countries, mode)
  {
    r := urls;
    for j := 0 to |countries|
      invariant r == urls + Row(p, countries, mode)[..j]
    {
      r := r + [ProxyUrl(p, countries[j], mode)];
    }
    assert Row(p, countries, mode)[..|countries|] == Row(p, countries, mode);
  }

  method InjectCountryModifiers(proxies: seq<Proxy>, countries: seq<string>, mode: Mode) returns (urls: seq<string>)
    ensures urls == Injected(proxies, countries, mode)
  {
    urls := [];
    ghost var rows := Rows(proxies, countries, mode);
    for i := 0 to |proxies|
      invariant urls == Flatten(rows[..i])
    {
      urls := AppendRow(urls, proxies[i], countries, mode);
      assert rows[..i + 1][..i] == rows[..i];
    }
    assert rows[..|proxies|] == rows;
  }

  lemma BlockBound(n: nat, m: nat, i: nat, j: nat)
    requires i < n && j < m
    ensures 0 <= i * m + j < n * m
  {
    assert (i + 1) * m <= n * m;
  }

  /** Row i directly follows the rows before it. */
  lemma {:induction false} FlattenAt<T>(rows: seq<seq<T>>, i: nat, j: nat)
    requires i < |rows| && j < |rows[i]|
    ensures var r, k := Flatten(rows), |Flatten(rows[..i])| + j; k < |r| && r[k] == rows[i][j]
  {
    var n := |rows| - 1;
    if i < n {
      FlattenAt(rows[..n], i, j);
      assert rows[..n][..i] == rows[..i];
    }
  }

  lemma {:induction false} FlattenLength<T>(rows: seq<seq<T>>, m: nat)
    requires forall i :: 0 <= i < |rows| ==> |rows[i]| == m
    ensures |Flatten(rows)| == |rows| * m
  {
    if |rows| > 0 {
      var n := |rows| - 1;
      FlattenLength(rows[..n], m);
      assert (n + 1) * m == n * m + m;
    }
  }

  lemma {:induction false} FlattenBlocks<T>(rows: seq<seq<T>>, n: nat, m: nat, i: nat, j: nat)
    requires |rows| == n && i < n && j < m && forall k :: 0 <= k < |rows| ==> |rows[k]| == m
    ensures 0 <= i * m + j < n * m == |Flatten(rows)|
    ensures Flatten(rows)[i * m + j] == rows[i][j]
  {
    FlattenLength(rows, m);
    FlattenLength(rows[..i], m);
    BlockBound(n, m, i, j);
    FlattenAt(rows, i, j);
  }

  lemma {:induction false} InjectedLength(proxies: seq<Proxy>, countries: seq<string>, mode: Mode)
    ensures |Injected(proxies, countries, mode)| == |proxies| * |countries|
  {
    FlattenLength(Rows(proxies, countries, mode), |countries|);
  }

  /** Every proxy appears once per country: proxy i's URLs fill the i-th block. */
  lemma {:induction false} InjectedBlocks(proxies: seq<Proxy>, countries: seq<string>, mode: Mode, i: nat, j: nat)
    requires i < |proxies| && j < |countries|
    ensures 0 <= i * |countries| + j < |proxies| * |countries| == |Injected(proxies, countries, mode)|
    ensures Injected(proxies, countries, mode)[i * |countries| + j] == ProxyUrl(proxies[i], countries[j], mode)
  {
    InjectedLength(proxies, countries, mode);
    BlockBound(|proxies|, |countries|, i, j);
    FlattenBlocks(Rows(proxies, countries, mode), |proxies|, |countries|, i, j);
  }

  function RotatingUrl(username: string, password: string, cc: string): string {
    "http://" + username + "-" + cc + "-rotate:" + password + "@" + GATEWAY + ":80"
  }

  /** One URL per country on the shared gateway. */
  function RotatingUrls(username: string, password: string, countries: seq<string>): (urls: seq<string>)
    ensures |urls| == |countries|
    ensures forall j :: 0 <= j < |urls| ==> urls[j] == RotatingUrl(username, password, countries[j])
  {
    seq(|countries|, j requires 0 <= j < |countries| => RotatingUrl(username, password, countries[j]))
  }

  method BuildRotatingUrls(username: string, password: string, countries: seq<string>) returns (urls: seq<string>)
    ensures urls == RotatingUrls(username, password, countries)
  {
    urls := [];
    for j := 0 to |countries|
      invariant urls == RotatingUrls(username, password, countries)[..j]
    {
      urls := urls + [RotatingUrl(username, password, countries[j])];
    }
  }

  lemma RotatingIsInjectedAt(username: string, password: string, cc: string)
    ensures RotatingUrl(username, password, cc) == ProxyUrl(Proxy("", 80, username, password), cc, Rotating)
  {
    assert Decimal(8) == "8";
    assert Signed(80) == Decimal(80) == "80";
    assert ":" + "80" == ":80" && "-rotate" + ":" == "-rotate:";
    var p := Proxy("", 80, username, password);
    var left := "http://" + username + ("-" + cc + "-rotate") + ":" + password + "@" + GATEWAY + ":" + "80";
    var right := "http://" + username + "-" + cc + "-rotate:" + password + "@" + GATEWAY + ":80";
    assert left == right;
  }

  /** The rotating URLs are those of one gateway proxy with a country modifier each: the two ways the
      package builds URLs agree. */
  lemma RotatingIsInjected(username: string, password: string, countries: seq<string>)
    ensures RotatingUrls(username, password, countries) ==
            Injected([Proxy("", 80, username, password)], countries, Rotating)
  {
    var p := Proxy("", 80, username, password);
    var rows := Rows([p], countries, Rotating);
    assert rows[..0] == [] && Flatten(rows) == rows[0];
    forall j | 0 <= j < |countries|
      ensures RotatingUrls(username, password, countries)[j] == Row(p, countries, Rotating)[j]
    {
      RotatingIsInjectedAt(username, password, countries[j]);
    }
  }

  /** list is what the pool's fetch can return for this configuration. */
  ghost predicate Fetchable(c: Config, list: seq<string>) {
    if c.mode == Rotating
    then exists u, p :: list == RotatingUrls(u, p, c.countries)
    else exists proxies: seq<Proxy> :: |proxies| > 0 && list == Injected(proxies, c.countries, c.mode)
  }

  /** Fetching rotating credentials: one page, whose first entry serves every country. */
  function FromFirst(c: Config, page: Result<Page, string>): Result<seq<string>, string> {
    match page
    case Err(e) => Err(e)
    case Ok(p) =>
      if |p.results| == 0 then Err(NO_CREDENTIALS)
      else Ok(RotatingUrls(p.results[0].username, p.results[0].password, c.countries))
  }

  /** Turning the fetched proxies into URLs. */
  function FromAll(c: Config, proxies: Result<seq<Proxy>, string>): Result<seq<string>, string> {
    match proxies
    case Err(e) => Err(e)
    case Ok(all) => Ok(Injected(all, c.countries, c.mode))
  }

  /** The closure fetch. */
  method Fetch(c: Config, pages: Pages) returns (r: Result<seq<string>, string>)
    requires Ready(c)
    ensures c.mode == Rotating ==> r == FromFirst(c, pages(0))
    ensures c.mode != Rotating ==> exists all :: Paged(pages, all) && r == FromAll(c, all)
    ensures r.Ok? ==> Fetchable(c, r.value)
  {
    if c.mode == Rotating {
      var page := pages(0);
      if page.Err? {
        return Err(page.error);
      }
      if |page.value.results| == 0 {
        return Err(NO_CREDENTIALS);
      }
      var first := page.value.results[0];
      var urls := BuildRotatingUrls(first.username, first.password, c.countries);
      return Ok(urls);
    }
    var proxies := FetchAllProxies(pages);
    if proxies.Err? {
      return Err(proxies.error);
    }
    var list := InjectCountryModifiers(proxies.value, c.countries, c.mode);
    r := Ok(list);
  }

  /** A fetched list is never empty. */
  lemma FetchableNonEmpty(c: Config)
    requires Ready(c)
    ensures forall list :: Fetchable(c, list) ==> |list| > 0
  {
    forall list | Fetchable(c, list)
      ensures |list| > 0
    {
      if c.mode != Rotating {
        var proxies: seq<Proxy> :| |proxies| > 0 && list == Injected(proxies, c.countries, c.mode);
        InjectedBlocks(proxies, c.countries, c.mode, 0, 0);
      }
    }
  }
}
