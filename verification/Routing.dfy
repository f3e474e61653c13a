/** From stored sites to answered hosts: when loading succeeds, and who serves a host. */
module Routing {
  import opened Common
  import opened SiteStore
  import opened SiteUniqueness
  import opened Router

  // ---------- loading ----------

  /** Some earlier site, already in the tables, has a domain or the port of s. */
  ghost predicate Met(t: Tables, s: Site) {
    (exists h :: h in t.exact && ServesExactly(s, h)) || (s.port > 0 && s.port in t.ports)
  }

  lemma MetIsClash(t: Tables, rest: seq<Site>, s: Site)
    requires Holds(t, rest) && Routed(s)
    ensures Met(t, s) <==> exists a :: a in rest && Clash(a, s)
  {
    if h :| h in t.exact && ServesExactly(s, h) {
      assert Clash(t.exact[h], s);
    }
    if s.port > 0 && s.port in t.ports {
      assert ServesPort(t.ports[s.port], s.port) && ServesPort(s, s.port);
      assert Clash(t.ports[s.port], s);
    }
    if a :| a in rest && Clash(a, s) {
      if h :| ServesExactly(a, h) && ServesExactly(s, h) {
        assert h in t.exact;
      } else {
        var p :| ServesPort(a, p) && ServesPort(s, p);
        assert p in t.ports;
      }
    }
  }

  lemma StarredIsWildcard()
    ensures forall d :: IsWildcard(d) <==> Starred(d)
  {
  }

  lemma ExactAfter(t: Tables, u: Tables, rest: seq<Site>, s: Site)
    requires HoldsExact(t.exact, rest) && Routed(s) && Added(WithPort(t, s), s, AllDomains(s), u)
    requires forall h :: h in t.exact ==> !ServesExactly(s, h)
    ensures HoldsExact(u.exact, rest + [s])
  {
    hide AllDomains, Starred;
    var all := rest + [s];
    assert forall x :: x in all <==> x in rest || x == s;
    StarredIsWildcard();
    forall x, h | x in all && ServesExactly(x, h)
      ensures h in u.exact && u.exact[h] == x
    {
      if x in rest {
        assert h in t.exact && t.exact[h] == x;
      } else {
        assert h in AllDomains(s);
      }
    }
  }

  lemma PortsAfter(t: Tables, rest: seq<Site>, s: Site)
    requires HoldsPorts(t.ports, rest) && Routed(s) && !(s.port > 0 && s.port in t.ports)
    ensures HoldsPorts(WithPort(t, s).ports, rest + [s])
  {
    var all := rest + [s];
    assert forall x :: x in all <==> x in rest || x == s;
  }

  lemma IDsAfter(t: Tables, rest: seq<Site>, s: Site)
    requires HoldsIDs(t.byID, rest) && Routed(s)
    ensures HoldsIDs(WithPort(t, s).byID, rest + [s])
  {
    var all := rest + [s];
    assert forall x :: x in all <==> x in rest || x == s;
  }

  lemma WildcardsAfter(t: Tables, u: Tables, rest: seq<Site>, s: Site)
    requires HoldsWildcards(t.wildcards, rest) && Routed(s) && Added(WithPort(t, s), s, AllDomains(s), u)
    ensures HoldsWildcards(u.wildcards, rest + [s])
  {
    var all := rest + [s];
    assert forall x :: x in all <==> x in rest || x == s;
  }

  lemma IdleAfter(t: Tables, rest: seq<Site>, s: Site)
    requires Holds(t, rest) && !Routed(s)
    ensures Holds(t, rest + [s])
  {
    var all := rest + [s];
    assert forall x :: x in all <==> x in rest || x == s;
  }

  lemma HostsAdded(t: Tables, rest: seq<Site>, s: Site)
    requires Holds(t, rest) && Routed(s) && !(s.port > 0 && s.port in t.ports)
    ensures var r := AddDomains(WithPort(t, s), s, AllDomains(s));
            && (r.Success? <==> forall h :: h in t.exact ==> !ServesExactly(s, h))
            && (r.Success? ==> Holds(r.value, rest + [s]))
            && (r.Failure? ==> r.error.DuplicateDomain?)
  {
    hide AllDomains, Starred, IsWildcard;
    DomainsOfOneSite(s);
    DomainsAdded(WithPort(t, s), s, AllDomains(s));
    StarredIsWildcard();
    var r := AddDomains(WithPort(t, s), s, AllDomains(s));
    assert forall h :: ServesExactly(s, h) <==> h in AllDomains(s) && !IsWildcard(h);
    if r.Success? {
      hide AddDomains;
      ExactAfter(t, r.value, rest, s);
      PortsAfter(t, rest, s);
      IDsAfter(t, rest, s);
      WildcardsAfter(t, r.value, rest, s);
    }
  }

  lemma {:induction false} SiteAdded(compiles: Site -> bool, t: Tables, rest: seq<Site>, s: Site)
    requires Holds(t, rest)
    ensures var r := AddSite(compiles, t, s);
            && (r.Success? <==> !Routed(s) || (compiles(s) && !Met(t, s)))
            && (r.Success? ==> Holds(r.value, rest + [s]))
            && (r.Failure? ==> (r.error.CompileFailed? <==> !compiles(s)))
  {
    hide Holds, AllDomains, AddDomains, ServesExactly;
    if !Routed(s) {
      IdleAfter(t, rest, s);
    } else if compiles(s) && !(s.port > 0 && s.port in t.ports) {
      HostsAdded(t, rest, s);
    }
  }

  lemma NoClashOfOneMore(rest: seq<Site>, s: Site)
    ensures NoClash(rest + [s]) <==> NoClash(rest) && forall a :: a in rest ==> !Clash(a, s)
  {
    var all := rest + [s];
    assert all[|rest|] == s && forall k :: 0 <= k < |rest| ==> all[k] == rest[k];
    if NoClash(all) {
      forall a | a in rest
        ensures !Clash(a, s)
      {
        var k :| 0 <= k < |rest| && rest[k] == a;
        assert !Clash(all[k], all[|rest|]);
      }
      forall i, j | 0 <= i < j < |rest|
        ensures !Clash(rest[i], rest[j])
      {
        assert !Clash(all[i], all[j]);
      }
    }
  }

  lemma IdleNeverClashes(a: Site, s: Site)
    requires !Routed(s)
    ensures !Clash(a, s)
  {
  }

  /** Loading succeeds exactly when every routed site compiles and no two of them share a host or a port;
      then the tables say who serves what. Without such a clash only compiling can fail. */
  lemma {:induction false} LoadSucceedsExactly(compiles: Site -> bool, sites: seq<Site>)
    ensures var r := Built(compiles, sites);
            && (r.Success? <==> AllCompile(compiles, sites) && NoClash(sites))
            && (r.Success? ==> Holds(r.value, sites))
            && (r.Failure? && NoClash(sites) ==> r.error.CompileFailed?)
  {
    if sites != [] {
      var rest, s := sites[..|sites| - 1], sites[|sites| - 1];
      LoadSucceedsExactly(compiles, rest);
      assert sites == rest + [s];
      NoClashOfOneMore(rest, s);
      assert AllCompile(compiles, sites) <==> AllCompile(compiles, rest) && (Routed(s) ==> compiles(s));
      if Built(compiles, rest).Success? {
        var t := Built(compiles, rest).value;
        SiteAdded(compiles, t, rest, s);
        if Routed(s) {
          MetIsClash(t, rest, s);
        } else {
          forall a | a in rest
            ensures !Clash(a, s)
          {
            IdleNeverClashes(a, s);
          }
        }
      }
    }
  }

  /** The error a site meets, if the earlier ones load: it does not compile, or an earlier one has its port,
      or one of its hosts. */
  ghost predicate Culprit(compiles: Site -> bool, earlier: seq<Site>, s: Site, e: LoadError) {
    && s.enabled && !s.l4
    && match e
       case CompileFailed(id) => !compiles(s) && id == s.id
       case DuplicatePort(port) => compiles(s) && ServesPort(s, port) && exists a :: a in earlier && ServesPort(a, port)
       case DuplicateDomain(host) =>
         && compiles(s) && (forall a :: a in earlier ==> !ServesPort(a, s.port))
         && ServesExactly(s, host) && exists a :: a in earlier && ServesExactly(a, host)
  }

  lemma {:induction false} TakenHost(t: Tables, s: Site, domains: seq<string>)
    requires Distinct(domains) && AddDomains(t, s, domains).Failure?
    ensures AddDomains(t, s, domains).error.DuplicateDomain?
    ensures var d := AddDomains(t, s, domains).error.domain; d in domains && !IsWildcard(d) && d in t.exact
  {
    var n := |domains| - 1;
    var rest, d := domains[..n], domains[n];
    DomainsAdded(t, s, rest);
    assert domains == rest + [d] && d !in rest;
    if AddDomains(t, s, rest).Failure? {
      TakenHost(t, s, rest);
    }
  }

  lemma SiteRefused(compiles: Site -> bool, t: Tables, earlier: seq<Site>, s: Site)
    requires Holds(t, earlier) && AddSite(compiles, t, s).Failure?
    ensures Culprit(compiles, earlier, s, AddSite(compiles, t, s).error)
  {
    hide AllDomains;
    if compiles(s) {
      if s.port > 0 && s.port in t.ports {
        assert ServesPort(t.ports[s.port], s.port);
      } else {
        DomainsOfOneSite(s);
        TakenHost(WithPort(t, s), s, AllDomains(s));
        var host := AddSite(compiles, t, s).error.domain;
        assert t.exact[host] in earlier && ServesExactly(t.exact[host], host) && ServesExactly(s, host);
      }
    }
  }

  /** A failed load names a real culprit: the first site that cannot be added, all before it loading without
      a clash. */
  lemma {:induction false} LoadErrorIsReal(compiles: Site -> bool, sites: seq<Site>) returns (i: nat)
    requires Built(compiles, sites).Failure?
    ensures i < |sites| && AllCompile(compiles, sites[..i]) && NoClash(sites[..i])
    ensures Culprit(compiles, sites[..i], sites[i], Built(compiles, sites).error)
  {
    i := |sites| - 1;
    LoadSucceedsExactly(compiles, sites[..i]);
    if Built(compiles, sites[..i]).Failure? {
      var k := LoadErrorIsReal(compiles, sites[..i]);
      assert sites[..i][..k] == sites[..k];
      i := k;
    } else {
      SiteRefused(compiles, Built(compiles, sites[..i]).value, sites[..i], sites[i]);
    }
  }

  // ---------- looking up ----------

  /** The host is some text and then the suffix of one of the site's wildcards. */
  ghost predicate Matches(s: Site, suffix: string, host: string) {
    ServesWildcard(s, suffix) && exists x :: host == x + suffix
  }

  lemma SuffixEnds(host: string, suffix: string)
    ensures HasSuffix(host, suffix) <==> exists x :: host == x + suffix
  {
    if HasSuffix(host, suffix) {
      assert host == host[..|host| - |suffix|] + suffix;
    }
  }

  ghost predicate Longest(sites: seq<Site>, host: string, n: nat) {
    forall s, suffix :: s in sites && Matches(s, suffix, host) ==> |suffix| <= n
  }

  /** The site that has the host, or else, if none has, one whose matching wildcard is the longest. */
  ghost predicate ServedBy(sites: seq<Site>, host: string, s: Site) {
    s in sites &&
    if exists t :: t in sites && ServesExactly(t, host) then ServesExactly(s, host)
    else exists suffix :: Matches(s, suffix, host) && Longest(sites, host, |suffix|)
  }

  /** No wildcard belongs to two sites. */
  ghost predicate WildcardsDistinct(sites: seq<Site>) {
    forall a, b, suffix :: a in sites && b in sites && ServesWildcard(a, suffix) && ServesWildcard(b, suffix) ==> a == b
  }

  lemma {:induction false} FirstMatchIs(ws: seq<WildcardHost>, host: string) returns (i: nat)
    ensures FirstMatch(ws, host).None? ==> forall k :: 0 <= k < |ws| ==> !HasSuffix(host, ws[k].suffix)
    ensures FirstMatch(ws, host).Some? ==>
      && i < |ws| && HasSuffix(host, ws[i].suffix) && FirstMatch(ws, host) == Some(ws[i].site)
      && forall k :: 0 <= k < i ==> !HasSuffix(host, ws[k].suffix)
  {
    i := 0;
    if ws != [] && !HasSuffix(host, ws[0].suffix) {
      var j := FirstMatchIs(ws[1..], host);
      i := j + 1;
    }
  }

  lemma SameLengthSameSuffix(host: string, a: string, b: string)
    requires HasSuffix(host, a) && HasSuffix(host, b) && |a| == |b|
    ensures a == b
  {
  }

  lemma MembersKept(ws: seq<WildcardHost>, sorted: seq<WildcardHost>, w: WildcardHost)
    requires multiset(sorted) == multiset(ws)
    ensures w in sorted <==> w in ws
  {
    assert w in sorted <==> w in multiset(sorted);
  }

  lemma {:induction false} WildcardLookup(sites: seq<Site>, t: Tables, ws: seq<WildcardHost>, host: string, s: Site)
    requires HoldsWildcards(t.wildcards, sites) && WildcardsDistinct(sites)
    requires multiset(ws) == multiset(t.wildcards) && LongestFirst(ws)
    ensures FirstMatch(ws, host) == Some(s) <==>
            s in sites && exists suffix :: Matches(s, suffix, host) && Longest(sites, host, |suffix|)
  {
    var i := FirstMatchIs(ws, host);
    if FirstMatch(ws, host).Some? {
      var w := ws[i];
      MembersKept(t.wildcards, ws, w);
      SuffixEnds(host, w.suffix);
      assert w.site in sites && Matches(w.site, w.suffix, host);
      forall a, suffix | a in sites && Matches(a, suffix, host)
        ensures |suffix| <= |w.suffix|
      {
        SuffixEnds(host, suffix);
        ReachedLater(t.wildcards, ws, host, a, suffix, i);
      }
      if s in sites {
        forall suffix | Matches(s, suffix, host) && Longest(sites, host, |suffix|)
          ensures s == w.site
        {
          SuffixEnds(host, suffix);
          SameLengthSameSuffix(host, suffix, w.suffix);
        }
      }
    } else if s in sites {
      forall suffix | ServesWildcard(s, suffix)
        ensures !Matches(s, suffix, host)
      {
        SuffixEnds(host, suffix);
        MembersKept(t.wildcards, ws, WildcardHost(suffix, s));
        var k :| 0 <= k < |ws| && ws[k] == WildcardHost(suffix, s);
      }
    }
  }

  lemma ReachedLater(all: seq<WildcardHost>, ws: seq<WildcardHost>, host: string, a: Site, suffix: string, i: nat)
    requires multiset(ws) == multiset(all) && LongestFirst(ws) && i < |ws|
    requires WildcardHost(suffix, a) in all && HasSuffix(host, suffix)
    requires forall k :: 0 <= k < i ==> !HasSuffix(host, ws[k].suffix)
    ensures |suffix| <= |ws[i].suffix|
  {
    MembersKept(all, ws, WildcardHost(suffix, a));
    var k :| 0 <= k < |ws| && ws[k] == WildcardHost(suffix, a);
    assert k >= i;
  }

  /** However the sort orders equally long suffixes, a lookup finds who serves the host, and nobody
      exactly when nobody does. */
  lemma LookupIsLongest(sites: seq<Site>, t: Tables, ws: seq<WildcardHost>, host: string)
    requires Holds(t, sites) && WildcardsDistinct(sites)
    requires multiset(ws) == multiset(t.wildcards) && LongestFirst(ws)
    ensures forall s :: Lookup(t.exact, ws, host) == Some(s) <==> ServedBy(sites, host, s)
  {
    forall s
      ensures Lookup(t.exact, ws, host) == Some(s) <==> ServedBy(sites, host, s)
    {
      if host in t.exact {
        assert t.exact[host] in sites && ServesExactly(t.exact[host], host);
      } else {
        WildcardLookup(sites, t, ws, host, s);
      }
    }
  }

  // ---------- a node's sites ----------

  function SitesOfNode(items: seq<Site>, nodeID: string): seq<Site> {
    if items == [] then []
    else
      var before, last := SitesOfNode(items[..|items| - 1], nodeID), items[|items| - 1];
      if NormalizeID(last.node) == NormalizeID(nodeID) then before + [last] else before
  }

  method FilterSitesForNode(items: seq<Site>, nodeID: string) returns (out: seq<Site>)
    ensures out == SitesOfNode(items, nodeID)
  {
    var target := NormalizeID(nodeID);
    out := [];
    for i := 0 to |items|
      invariant out == SitesOfNode(items[..i], nodeID)
    {
      assert items[..i + 1][..i] == items[..i];
      if NormalizeID(items[i].node) != target {
        continue;
      }
      out := out + [items[i]];
    }
    assert items[..|items|] == items;
  }

  /** A node's sites are those whose node is the same, blank ones counting as the default node. */
  lemma {:induction false} SitesOfNodeAre(items: seq<Site>, nodeID: string, s: Site)
    ensures s in SitesOfNode(items, nodeID) <==> s in items && SameNode(s.node, nodeID)
  {
    hide NormalizeID, SameNode;
    if items != [] {
      var rest, last := items[..|items| - 1], items[|items| - 1];
      SitesOfNodeAre(rest, nodeID, s);
      NodesAreSame(last.node, nodeID);
      assert items == rest + [last];
    }
  }

  lemma {:induction false} NodeSites(items: seq<Site>, nodeID: string)
    requires Unique(items) && Identified(items)
    ensures forall s :: s in SitesOfNode(items, nodeID) <==> s in items && s.node == NormalizeID(nodeID)
    ensures Unique(SitesOfNode(items, nodeID))
  {
    if items != [] {
      var rest, last := items[..|items| - 1], items[|items| - 1];
      NodeSites(rest, nodeID);
      assert items == rest + [last];
      var before := SitesOfNode(rest, nodeID);
      if NormalizeID(last.node) == NormalizeID(nodeID) {
        forall k | 0 <= k < |before|
          ensures Compatible(before[k], last)
        {
          assert before[k] in rest;
          var m :| 0 <= m < |rest| && rest[m] == before[k];
          assert Compatible(items[m], items[|rest|]);
        }
        UniqueWithOneMore(before, last);
      }
    }
  }

  lemma ClashIsShared(a: Site, b: Site)
    ensures Clash(a, b) ==> SharesDomain(a, b) || SharesPort(a, b)
  {
    if h :| ServesExactly(a, h) && ServesExactly(b, h) {
      assert SharesDomain(a, b);
    }
  }

  lemma SharedMeansSame(sites: seq<Site>, i: nat, j: nat, d: string)
    requires Unique(sites) && i < |sites| && j < |sites| && sites[i].node == sites[j].node
    requires d in AllDomains(sites[i]) && d in AllDomains(sites[j])
    ensures i == j
  {
    CompatibleIsSymmetric(sites[i], sites[j]);
  }

  lemma UniqueNeverClashes(sites: seq<Site>, node: string)
    requires Unique(sites) && forall s :: s in sites ==> s.node == node
    ensures NoClash(sites) && WildcardsDistinct(sites)
  {
    forall i, j | 0 <= i < j < |sites|
      ensures !Clash(sites[i], sites[j])
    {
      assert Compatible(sites[i], sites[j]) && sites[i] in sites && sites[j] in sites;
      ClashIsShared(sites[i], sites[j]);
    }
    forall a, b, suffix | a in sites && b in sites && ServesWildcard(a, suffix) && ServesWildcard(b, suffix)
      ensures a == b
    {
      var i :| 0 <= i < |sites| && sites[i] == a;
      var j :| 0 <= j < |sites| && sites[j] == b;
      SharedMeansSame(sites, i, j, "*" + suffix);
    }
  }

  /** After any run of the store, loading a node's sites can fail only because one of them does not
      compile; and once loaded, a host goes to the site that has it or to the longest wildcard. */
  lemma {:induction false} StoredSitesRoute(ops: seq<Op>, nodeID: string, compiles: Site -> bool)
    requires AllBringIDs(ops)
    ensures var mine := SitesOfNode(Run(ops), nodeID); var r := Built(compiles, mine);
            && (r.Success? <==> AllCompile(compiles, mine))
            && (r.Failure? ==> r.error.CompileFailed?)
            && (r.Success? ==>
                 forall ws, host, s :: multiset(ws) == multiset(r.value.wildcards) && LongestFirst(ws) ==>
                   (Lookup(r.value.exact, ws, host) == Some(s) <==> ServedBy(mine, host, s)))
  {
    var mine := SitesOfNode(Run(ops), nodeID);
    EveryRunKeepsUniqueness(ops);
    NodeSites(Run(ops), nodeID);
    UniqueNeverClashes(mine, NormalizeID(nodeID));
    LoadSucceedsExactly(compiles, mine);
    var r := Built(compiles, mine);
    if r.Success? {
      forall ws, host, s | multiset(ws) == multiset(r.value.wildcards) && LongestFirst(ws)
        ensures Lookup(r.value.exact, ws, host) == Some(s) <==> ServedBy(mine, host, s)
      {
        LookupIsLongest(mine, r.value, ws, host);
      }
    }
  }
}
