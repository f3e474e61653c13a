/** Loading a routing table of hosts and wildcards, and looking a host up in it.

    A load is all or nothing. Wildcards are tried longest first; the sort leaves open how it orders those
    of equal length, and so do the lemmas. */
module Router {
  import opened Common
  import opened Text
  import opened SiteStore
  import opened SiteUniqueness

  datatype WildcardHost = WildcardHost(suffix: string, site: Site)

  datatype Tables = Tables(
    exact: map<string, Site>, wildcards: seq<WildcardHost>, ports: map<int, Site>, byID: map<string, Site>)

  const EMPTY := Tables(map[], [], map[], map[])

  datatype LoadError = CompileFailed(id: string) | DuplicatePort(port: int) | DuplicateDomain(domain: string)

  predicate Routed(s: Site) {
    s.enabled && !s.l4
  }

  predicate IsWildcard(domain: string) {
    "*." <= domain
  }

  // ---------- building the tables ----------

  function AddDomains(t: Tables, s: Site, domains: seq<string>): Result<Tables, LoadError> {
    if domains == [] then Success(t)
    else
      var before, d := AddDomains(t, s, domains[..|domains| - 1]), domains[|domains| - 1];
      if before.Failure? then before
      else
        var u := before.value;
        if IsWildcard(d) then Success(u.(wildcards := u.wildcards + [WildcardHost(d[1..], s)]))
        else if d in u.exact then Failure(DuplicateDomain(d))
        else Success(u.(exact := u.exact[d := s]))
  }

  function WithPort(t: Tables, s: Site): Tables {
    t.(byID := t.byID[s.id := s], ports := if s.port > 0 then t.ports[s.port := s] else t.ports)
  }

  function AddSite(compiles: Site -> bool, t: Tables, s: Site): Result<Tables, LoadError> {
    if !Routed(s) then Success(t)
    else if !compiles(s) then Failure(CompileFailed(s.id))
    else if s.port > 0 && s.port in t.ports then Failure(DuplicatePort(s.port))
    else AddDomains(WithPort(t, s), s, AllDomains(s))
  }

  /** compiles: which sites compile. */
  function Built(compiles: Site -> bool, sites: seq<Site>): Result<Tables, LoadError> {
    if sites == [] then Success(EMPTY)
    else
      var before := Built(compiles, sites[..|sites| - 1]);
      if before.Failure? then before else AddSite(compiles, before.value, sites[|sites| - 1])
  }

  lemma {:induction false} AddingStaysFailed(t: Tables, s: Site, domains: seq<string>, m: nat, n: nat)
    requires m <= n <= |domains| && AddDomains(t, s, domains[..m]).Failure?
    ensures AddDomains(t, s, domains[..n]) == AddDomains(t, s, domains[..m])
    decreases n
  {
    if m < n {
      AddingStaysFailed(t, s, domains, m, n - 1);
      assert domains[..n][..n - 1] == domains[..n - 1];
    }
  }

  lemma {:induction false} BuildingStaysFailed(compiles: Site -> bool, sites: seq<Site>, m: nat, n: nat)
    requires m <= n <= |sites| && Built(compiles, sites[..m]).Failure?
    ensures Built(compiles, sites[..n]) == Built(compiles, sites[..m])
    decreases n
  {
    if m < n {
      BuildingStaysFailed(compiles, sites, m, n - 1);
      assert sites[..n][..n - 1] == sites[..n - 1];
    }
  }

  method LoadDomains(t: Tables, s: Site, domains: seq<string>) returns (r: Result<Tables, LoadError>)
    ensures r == AddDomains(t, s, domains)
  {
    var u := t;
    for i := 0 to |domains|
      invariant AddDomains(t, s, domains[..i]) == Success(u)
    {
      assert domains[..i + 1][..i] == domains[..i];
      var d := domains[i];
      if IsWildcard(d) {
        u := u.(wildcards := u.wildcards + [WildcardHost(d[1..], s)]);
        continue;
      }
      if d in u.exact {
        AddingStaysFailed(t, s, domains, i + 1, |domains|);
        assert domains[..|domains|] == domains;
        return Failure(DuplicateDomain(d));
      }
      u := u.(exact := u.exact[d := s]);
    }
    assert domains[..|domains|] == domains;
    return Success(u);
  }

  method LoadSite(compiles: Site -> bool, t: Tables, s: Site) returns (r: Result<Tables, LoadError>)
    ensures r == AddSite(compiles, t, s)
  {
    if !s.enabled || s.l4 {
      return Success(t);
    }
    if !compiles(s) {
      return Failure(CompileFailed(s.id));
    }
    var u := t.(byID := t.byID[s.id := s]);
    if s.port > 0 {
      if s.port in u.ports {
        return Failure(DuplicatePort(s.port));
      }
      u := u.(ports := u.ports[s.port := s]);
    }
    r := LoadDomains(u, s, AllDomains(s));
  }

  ghost predicate LongestFirst(ws: seq<WildcardHost>) {
    forall i, j :: 0 <= i < j < |ws| ==> |ws[i].suffix| >= |ws[j].suffix|
  }

  method InsertByLength(ws: seq<WildcardHost>, w: WildcardHost) returns (sorted: seq<WildcardHost>)
    requires LongestFirst(ws)
    ensures LongestFirst(sorted) && multiset(sorted) == multiset(ws) + multiset{w}
  {
    var k := 0;
    while k < |ws| && |ws[k].suffix| > |w.suffix|
      invariant k <= |ws|
      invariant k > 0 ==> |ws[k - 1].suffix| > |w.suffix|
    {
      k := k + 1;
    }
    InsertedInOrder(ws, k, w);
    assert ws == ws[..k] + ws[k..];
    return ws[..k] + [w] + ws[k..];
  }

  lemma InsertedInOrder(ws: seq<WildcardHost>, k: nat, w: WildcardHost)
    requires LongestFirst(ws) && k <= |ws|
    requires k > 0 ==> |ws[k - 1].suffix| >= |w.suffix|
    requires k < |ws| ==> |ws[k].suffix| <= |w.suffix|
    ensures LongestFirst(ws[..k] + [w] + ws[k..])
  {
    var r := ws[..k] + [w] + ws[k..];
    forall i, j | 0 <= i < j < |r|
      ensures |r[i].suffix| >= |r[j].suffix|
    {
      assert r[i] == if i < k then ws[i] else if i == k then w else ws[i - 1];
      assert r[j] == if j < k then ws[j] else if j == k then w else ws[j - 1];
    }
  }

  /** The contract leaves open in which order equally long suffixes come, as an unstable sort does. */
  method SortByLength(ws: seq<WildcardHost>) returns (sorted: seq<WildcardHost>)
    ensures LongestFirst(sorted) && multiset(sorted) == multiset(ws)
  {
    sorted := [];
    for i := 0 to |ws|
      invariant LongestFirst(sorted) && multiset(sorted) == multiset(ws[..i])
    {
      sorted := InsertByLength(sorted, ws[i]);
      assert ws[..i + 1] == ws[..i] + [ws[i]];
    }
    assert ws[..|ws|] == ws;
  }

  predicate HasSuffix(s: string, suffix: string) {
    |suffix| <= |s| && s[|s| - |suffix|..] == suffix
  }

  function FirstMatch(ws: seq<WildcardHost>, host: string): Option<Site> {
    if ws == [] then None
    else if HasSuffix(host, ws[0].suffix) then Some(ws[0].site)
    else FirstMatch(ws[1..], host)
  }

  function Lookup(exact: map<string, Site>, ws: seq<WildcardHost>, host: string): Option<Site> {
    if host in exact then Some(exact[host]) else FirstMatch(ws, host)
  }

  class Router {
    var exactHosts: map<string, Site>
    var wildcards: seq<WildcardHost>
    var portSites: map<int, Site>
    var siteByID: map<string, Site>

    constructor ()
      ensures exactHosts == map[] && wildcards == [] && portSites == map[] && siteByID == map[]
    {
      exactHosts, wildcards, portSites, siteByID := map[], [], map[], map[];
    }

    /** All or nothing. */
    method Load(sites: seq<Site>, compiles: Site -> bool) returns (r: Result<(), LoadError>)
      modifies this
      ensures match Built(compiles, sites)
              case Failure(e) =>
                && r == Failure(e)
                && unchanged(this)
              case Success(t) =>
                && r == Success(())
                && exactHosts == t.exact && portSites == t.ports && siteByID == t.byID
                && LongestFirst(wildcards) && multiset(wildcards) == multiset(t.wildcards)
    {
      var t := EMPTY;
      for i := 0 to |sites|
        invariant Built(compiles, sites[..i]) == Success(t)
        invariant unchanged(this)
      {
        assert sites[..i + 1][..i] == sites[..i];
        var next := LoadSite(compiles, t, sites[i]);
        if next.Failure? {
          BuildingStaysFailed(compiles, sites, i + 1, |sites|);
          assert sites[..|sites|] == sites;
          return Failure(next.error);
        }
        t := next.value;
      }
      assert sites[..|sites|] == sites;
      var sorted := SortByLength(t.wildcards);
      exactHosts, wildcards, portSites, siteByID := t.exact, sorted, t.ports, t.byID;
      return Success(());
    }

    method LookupSite(host: string) returns (s: Option<Site>)
      ensures s == Lookup(exactHosts, wildcards, host)
    {
      if host in exactHosts {
        return Some(exactHosts[host]);
      }
      for i := 0 to |wildcards|
        invariant FirstMatch(wildcards, host) == FirstMatch(wildcards[i..], host)
      {
        if HasSuffix(host, wildcards[i].suffix) {
          return Some(wildcards[i].site);
        }
      }
      return None;
    }
  }

  // ---------- when building succeeds ----------

  /** A domain with a star in place of its first label. */
  ghost predicate Starred(domain: string) {
    |domain| >= 2 && domain[0] == '*' && domain[1] == '.'
  }

  ghost predicate ServesExactly(s: Site, host: string) {
    s.enabled && !s.l4 && !Starred(host) && host in AllDomains(s)
  }

  ghost predicate ServesPort(s: Site, port: int) {
    s.enabled && !s.l4 && s.port == port && port > 0
  }

  ghost predicate ServesWildcard(s: Site, suffix: string) {
    s.enabled && !s.l4 && Starred("*" + suffix) && "*" + suffix in AllDomains(s)
  }

  ghost predicate Clash(a: Site, b: Site) {
    (exists h :: ServesExactly(a, h) && ServesExactly(b, h)) || (exists p :: ServesPort(a, p) && ServesPort(b, p))
  }

  ghost predicate NoClash(sites: seq<Site>) {
    forall i, j :: 0 <= i < j < |sites| ==> !Clash(sites[i], sites[j])
  }

  ghost predicate AllCompile(compiles: Site -> bool, sites: seq<Site>) {
    forall i :: 0 <= i < |sites| && sites[i].enabled && !sites[i].l4 ==> compiles(sites[i])
  }

  ghost predicate HoldsExact(exact: map<string, Site>, sites: seq<Site>) {
    && (forall h :: h in exact ==> exact[h] in sites && ServesExactly(exact[h], h))
    && (forall s, h :: s in sites && ServesExactly(s, h) ==> h in exact && exact[h] == s)
  }

  ghost predicate HoldsPorts(ports: map<int, Site>, sites: seq<Site>) {
    && (forall p :: p in ports ==> ports[p] in sites && ServesPort(ports[p], p))
    && (forall s, p :: s in sites && ServesPort(s, p) ==> p in ports && ports[p] == s)
  }

  ghost predicate HoldsWildcards(ws: seq<WildcardHost>, sites: seq<Site>) {
    forall w :: w in ws <==> w.site in sites && ServesWildcard(w.site, w.suffix)
  }

  ghost predicate HoldsIDs(byID: map<string, Site>, sites: seq<Site>) {
    && (forall id :: id in byID ==> byID[id] in sites && byID[id].enabled && !byID[id].l4 && byID[id].id == id)
    && (forall s :: s in sites && s.enabled && !s.l4 ==> s.id in byID)
  }

  /** The tables say who serves what, no more and no less. */
  ghost predicate Holds(t: Tables, sites: seq<Site>) {
    HoldsExact(t.exact, sites) && HoldsPorts(t.ports, sites) && HoldsWildcards(t.wildcards, sites) && HoldsIDs(t.byID, sites)
  }

  ghost predicate Added(t: Tables, s: Site, domains: seq<string>, u: Tables) {
    && u.ports == t.ports && u.byID == t.byID
    && (forall h :: h in u.exact <==> h in t.exact || (h in domains && !IsWildcard(h)))
    && (forall h :: h in u.exact ==> u.exact[h] == if h in t.exact then t.exact[h] else s)
    && (forall w :: w in u.wildcards <==>
          w in t.wildcards || (w.site == s && IsWildcard("*" + w.suffix) && "*" + w.suffix in domains))
  }

  lemma AddedWildcard(t: Tables, s: Site, domains: seq<string>, u: Tables, d: string)
    requires Added(t, s, domains, u) && IsWildcard(d)
    ensures Added(t, s, domains + [d], u.(wildcards := u.wildcards + [WildcardHost(d[1..], s)]))
  {
    assert "*" + d[1..] == d;
    forall w: WildcardHost
      ensures "*" + w.suffix in domains + [d] <==> "*" + w.suffix in domains || w.suffix == d[1..]
    {
      if "*" + w.suffix == d {
        assert ("*" + w.suffix)[1..] == w.suffix;
      }
    }
  }

  lemma AddedExact(t: Tables, s: Site, domains: seq<string>, u: Tables, d: string)
    requires Added(t, s, domains, u) && !IsWildcard(d) && d !in u.exact
    ensures Added(t, s, domains + [d], u.(exact := u.exact[d := s]))
  {
    forall w: WildcardHost | IsWildcard("*" + w.suffix)
      ensures "*" + w.suffix in domains + [d] <==> "*" + w.suffix in domains
    {
    }
  }

  /** What adding a site's domains does, in terms of the domains alone. */
  lemma {:induction false} DomainsAdded(t: Tables, s: Site, domains: seq<string>)
    requires Distinct(domains)
    ensures var r := AddDomains(t, s, domains);
            && (r.Success? <==> forall d :: d in domains && !IsWildcard(d) ==> d !in t.exact)
            && (r.Failure? ==> r.error.DuplicateDomain?)
            && (r.Success? ==> Added(t, s, domains, r.value))
  {
    if domains != [] {
      var n := |domains| - 1;
      var rest, d := domains[..n], domains[n];
      DomainsAdded(t, s, rest);
      assert domains == rest + [d] && d !in rest;
      var before := AddDomains(t, s, rest);
      if before.Success? {
        if IsWildcard(d) {
          AddedWildcard(t, s, rest, before.value, d);
        } else if d !in before.value.exact {
          AddedExact(t, s, rest, before.value, d);
        }
      }
    }
  }
}
