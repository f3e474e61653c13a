/** The site store.

    Four operations on a list of sites, and the uniqueness of domains and of enabled listen ports on each
    node that they are there to keep. */
module SiteStore {
  import opened Common
  import opened Text

  // ---------- sites ----------

  /** config stands for all settings of a site that play no part here. */
  datatype Site = Site(
    id: string, node: string, domain: string, extras: seq<string>, port: int, enabled: bool, l4: bool, config: nat)

  function CutPrefix(s: string, prefix: string): string {
    if prefix <= s then s[|prefix|..] else s
  }

  function IndexOf(s: string, c: char): nat {
    if s == "" || s[0] == c then 0 else 1 + IndexOf(s[1..], c)
  }

  function CutPort(host: string): string {
    var i := IndexOf(host, ':');
    if 0 < i < |host| then host[..i] else host
  }

  /** Lower case, without scheme and port. */
  function NormalizeHost(raw: string): string {
    CutPort(CutPrefix(CutPrefix(Lower(Trim(raw)), "http://"), "https://"))
  }

  function Extras(primary: string, extras: seq<string>): seq<string> {
    if extras == [] then []
    else
      var before, d := Extras(primary, extras[..|extras| - 1]), NormalizeHost(extras[|extras| - 1]);
      if d == "" || d == primary || d in before then before else before + [d]
  }

  method NormalizeDomains(primary: string, extras: seq<string>) returns (first: string, others: seq<string>)
    ensures first == NormalizeHost(primary) && others == Sort(Extras(first, extras))
  {
    first := NormalizeHost(primary);
    var out: seq<string> := [];
    var seen: set<string> := if first != "" then {first} else {};
    for i := 0 to |extras|
      invariant out == Extras(first, extras[..i])
      invariant forall d :: d in seen <==> d in out || (d == first && d != "")
    {
      assert extras[..i + 1][..i] == extras[..i];
      var d := NormalizeHost(extras[i]);
      if d == "" || d in seen {
        continue;
      }
      seen := seen + {d};
      out := out + [d];
    }
    assert extras[..|extras|] == extras;
    others := Sort(out);
  }

  function AllDomains(s: Site): seq<string> {
    var first := NormalizeHost(s.domain);
    (if first != "" then [first] else []) + Sort(Extras(first, s.extras))
  }

  function NormalizeID(raw: string): string {
    var value := Lower(Trim(raw));
    if value == "" then "default" else value
  }

  /** What is stored of a site that passes validation. */
  function NormalizeSite(s: Site): Site {
    var first := NormalizeHost(s.domain);
    s.(node := NormalizeID(s.node), domain := first, extras := Sort(Extras(first, s.extras)))
  }

  // ---------- what normalising means ----------

  /** Blank names and "default" mean the same node; otherwise names do if they differ in space around them and
      case only. */
  ghost predicate SameNode(a: string, b: string) {
    || EqualFold(Trim(a), Trim(b))
    || ((Trim(a) == "" || EqualFold(Trim(a), "default")) && (Trim(b) == "" || EqualFold(Trim(b), "default")))
  }

  lemma NodesAreSame(a: string, b: string)
    ensures NormalizeID(a) == NormalizeID(b) <==> SameNode(a, b)
  {
    hide Trim;
    assert Lower("default") == "default";
    assert forall s :: Lower(s) == "" <==> s == "";
  }

  predicate IsPort(port: string) {
    port == "" || (port[0] == ':' && !("://" <= port))
  }

  lemma {:induction false} FirstColon(host: string, port: string)
    requires ':' !in host && IsPort(port)
    ensures IndexOf(host + port, ':') == |host|
  {
    if host == "" {
      assert host + port == port;
    } else {
      assert (host + port)[1..] == host[1..] + port;
      FirstColon(host[1..], port);
    }
  }

  lemma PortIsCut(host: string, port: string)
    requires ':' !in host && IsPort(port)
    ensures CutPort(host + port) == if host == "" then port else host
  {
    FirstColon(host, port);
    assert (host + port)[..|host|] == host;
  }

  lemma SchemeShows(host: string, port: string, name: string)
    requires ':' !in host && ':' !in name && (port == "" || port[0] == ':')
    requires name + "://" <= host + port
    ensures "://" <= port
  {
    var t, p := host + port, name + "://";
    assert p[|name|] == ':' && t[|name|] == ':';
    assert |host| <= |name|;
    assert t[|host|] == ':' && p[|host|] == ':';
    assert |name| <= |host|;
    assert port == t[|host|..] && "://" == p[|name|..];
  }

  lemma NoScheme(host: string, port: string, name: string)
    requires ':' !in host && ':' !in name && IsPort(port)
    ensures !(name + "://" <= host + port)
  {
    if name + "://" <= host + port {
      SchemeShows(host, port, name);
    }
  }

  lemma SchemeIsCut(scheme: string, host: string, port: string)
    requires scheme in {"", "http://", "https://"} && ':' !in host && IsPort(port)
    ensures CutPrefix(CutPrefix(scheme + (host + port), "http://"), "https://") == host + port
  {
    var t := host + port;
    NoScheme(host, port, "http");
    NoScheme(host, port, "https");
    assert "http" + "://" == "http://" && "https" + "://" == "https://";
    assert scheme == "" ==> scheme + t == t;
    assert (scheme + t)[|scheme|..] == t;
    if scheme == "https://" {
      assert (scheme + t)[4] == 's' && "http://"[4] == ':';
    }
  }

  lemma LowerKeepsSeparator(s: string)
    ensures "://" <= Lower(s) <==> "://" <= s
    ensures ':' in Lower(s) <==> ':' in s
    ensures Lower(s) == "" <==> s == ""
  {
    assert forall i :: 0 <= i < |s| ==> (Lower(s)[i] == ':' <==> s[i] == ':') && (Lower(s)[i] == '/' <==> s[i] == '/');
  }

  /** Space around it, a scheme and a port leave a host what it is, in lower case. */
  lemma {:induction false} HostIsRead(before: string, scheme: string, host: string, port: string, after: string)
    requires AllSpace(before) && AllSpace(after) && Trimmed(scheme + host + port) && scheme + host + port != ""
    requires Lower(scheme) in {"", "http://", "https://"} && ':' !in host && IsPort(port)
    ensures NormalizeHost(before + (scheme + host + port) + after) == if host == "" then Lower(port) else Lower(host)
  {
    hide Trim, Trimmed, AllSpace, Lower, CutPrefix, CutPort, IsPort;
    TrimSurrounded(before, scheme + host + port, after);
    LowerParts(scheme, host, port);
    LowerKeepsSeparator(host);
    LowerKeepsSeparator(port);
    LowerPort(port);
    SchemeIsCut(Lower(scheme), Lower(host), Lower(port));
    PortIsCut(Lower(host), Lower(port));
  }

  lemma LowerParts(scheme: string, host: string, port: string)
    ensures Lower(scheme + host + port) == Lower(scheme) + (Lower(host) + Lower(port))
  {
  }

  lemma LowerPort(port: string)
    requires IsPort(port)
    ensures IsPort(Lower(port))
  {
    LowerKeepsSeparator(port);
  }

  lemma {:induction false} ExtrasMean(primary: string, extras: seq<string>, d: string)
    ensures d in Extras(primary, extras) <==>
            d != "" && d != primary && exists i :: 0 <= i < |extras| && NormalizeHost(extras[i]) == d
  {
    hide NormalizeHost;
    if extras != [] {
      var n := |extras| - 1;
      ExtrasMean(primary, extras[..n], d);
      assert forall i :: 0 <= i < n ==> extras[..n][i] == extras[i];
    }
  }

  /** The domains of a site: the primary one first, the others in order, blank ones left out. */
  lemma {:induction false} AllDomainsMean(s: Site, d: string)
    ensures d in AllDomains(s) <==>
            d != "" && (d == NormalizeHost(s.domain) || exists i :: 0 <= i < |s.extras| && NormalizeHost(s.extras[i]) == d)
    ensures NormalizeHost(s.domain) != "" ==>
              AllDomains(s) != [] && AllDomains(s)[0] == NormalizeHost(s.domain) && Sorted(AllDomains(s)[1..])
    ensures NormalizeHost(s.domain) == "" ==> Sorted(AllDomains(s))
  {
    hide NormalizeHost;
    var first := NormalizeHost(s.domain);
    var e := Extras(first, s.extras);
    ExtrasMean(first, s.extras, d);
    SortMembers(e, d);
    SortFacts(e);
    hide Extras, Sort;
    assert first != "" ==> AllDomains(s)[1..] == Sort(e);
    assert first == "" ==> AllDomains(s) == Sort(e);
  }

  lemma LowerKeepsTrimmed(s: string)
    requires Trimmed(s)
    ensures Trimmed(Lower(s)) && Lower(Lower(s)) == Lower(s)
  {
  }

  lemma NormalizeIDTwice(raw: string)
    ensures NormalizeID(NormalizeID(raw)) == NormalizeID(raw)
  {
    var value := Trim(raw);
    TrimFacts(raw);
    TrimFacts("default");
    assert Lower("default") == "default";
    LowerKeepsTrimmed(value);
    TrimFacts(Lower(value));
    hide Trim, Lower, Trimmed;
  }

  lemma {:induction false} ExtrasDistinct(primary: string, extras: seq<string>)
    ensures forall i, j :: 0 <= i < j < |Extras(primary, extras)| ==> Extras(primary, extras)[i] != Extras(primary, extras)[j]
    ensures forall d :: d in Extras(primary, extras) ==> d != "" && d != primary
  {
    if extras != [] {
      ExtrasDistinct(primary, extras[..|extras| - 1]);
    }
  }

  lemma SortedNoRepeats(s: seq<string>)
    requires Distinct(s)
    ensures Distinct(Sort(s))
  {
    SortFacts(s);
    PermutationIsDistinct(Sort(s), s);
  }

  lemma PutInFront(first: string, s: seq<string>)
    requires Distinct(s) && first !in s
    ensures Distinct([first] + s)
  {
  }

  lemma {:induction false} ExtraDomains(primary: string, extras: seq<string>)
    ensures Distinct(Sort(Extras(primary, extras)))
    ensures "" !in Sort(Extras(primary, extras)) && primary !in Sort(Extras(primary, extras))
  {
    var e := Extras(primary, extras);
    ExtrasDistinct(primary, extras);
    SortedNoRepeats(e);
    SortMembers(e, "");
    SortMembers(e, primary);
  }

  /** No domain appears twice on one site. */
  lemma {:induction false} DomainsOfOneSite(s: Site)
    ensures Distinct(AllDomains(s)) && "" !in AllDomains(s)
  {
    var first := NormalizeHost(s.domain);
    ExtraDomains(first, s.extras);
    PutInFront(first, Sort(Extras(first, s.extras)));
  }

  // ---------- uniqueness ----------

  predicate SharesDomain(a: Site, b: Site) {
    exists d | d in AllDomains(a) :: d in AllDomains(b)
  }

  predicate SharesPort(a: Site, b: Site) {
    a.enabled && b.enabled && a.port == b.port && a.port > 0
  }

  predicate Listens(s: Site, port: int) {
    s.enabled && s.port == port && port > 0
  }

  ghost predicate PortsUniqueEverywhere(sites: seq<Site>) {
    forall i, j :: 0 <= i < j < |sites| ==> !SharesPort(sites[i], sites[j])
  }

  predicate Compatible(a: Site, b: Site) {
    a.node == b.node ==> !SharesDomain(a, b) && !SharesPort(a, b)
  }

  /** On every node, domains are unique, and listen ports among enabled sites. */
  ghost predicate Unique(sites: seq<Site>) {
    forall i, j :: 0 <= i < j < |sites| ==> Compatible(sites[i], sites[j])
  }

  predicate DomainsFree(sites: seq<Site>, item: Site, exceptID: string) {
    forall s | s in sites :: s.id != exceptID && s.node == item.node ==> !SharesDomain(item, s)
  }

  predicate PortFree(sites: seq<Site>, item: Site, exceptID: string) {
    item.enabled && item.port > 0 ==>
      forall s | s in sites :: s.id != exceptID && s.enabled && s.node == item.node ==> s.port != item.port
  }

  lemma DomainsFreeOfOneMore(sites: seq<Site>, s: Site, item: Site, exceptID: string)
    requires DomainsFree(sites, item, exceptID)
    requires s.id != exceptID && s.node == item.node ==> !SharesDomain(item, s)
    ensures DomainsFree(sites + [s], item, exceptID)
  {
  }

  // ---------- the operations ----------

  datatype Error = Invalid | DomainTaken | PortTaken | NotFound | NotSaved

  /** valid: whether validation accepts the normalised item. */
  datatype Op =
    | Create(item: Site, valid: bool)
    | Update(id: string, patch: Site, valid: bool)
    | SetEnabled(id: string, on: bool)
    | Delete(id: string)

  /** The first site with this ID, or the number of sites. */
  function FirstWith(sites: seq<Site>, id: string): (i: nat)
    ensures i <= |sites|
    ensures i < |sites| ==> sites[i].id == id
    ensures forall k :: 0 <= k < i ==> sites[k].id != id
  {
    if sites == [] || sites[0].id == id then 0 else 1 + FirstWith(sites[1..], id)
  }

  /** An update leaves the ID and the protocol alone. */
  function Patched(was: Site, patch: Site): Site {
    patch.(id := was.id, l4 := was.l4)
  }

  function Without(sites: seq<Site>, id: string): seq<Site> {
    if sites == [] then []
    else
      var before, last := Without(sites[..|sites| - 1], id), sites[|sites| - 1];
      if last.id == id then before else before + [last]
  }

  function Rejection(sites: seq<Site>, item: Site, valid: bool, exceptID: string): Option<Error> {
    if !valid then Some(Invalid)
    else if !DomainsFree(sites, item, exceptID) then Some(DomainTaken)
    else if !PortFree(sites, item, exceptID) then Some(PortTaken)
    else None
  }

  function Refusal(sites: seq<Site>, op: Op): Option<Error> {
    match op
    case Create(item, valid) => Rejection(sites, NormalizeSite(item), valid, "")
    case Update(id, patch, valid) =>
      var r := Rejection(sites, NormalizeSite(patch), valid, id);
      if r.Some? then r else if FirstWith(sites, id) == |sites| then Some(NotFound) else None
    case SetEnabled(id, on) =>
      var i := FirstWith(sites, id);
      if i == |sites| then Some(NotFound)
      else if on && !PortFree(sites, sites[i].(enabled := true), id) then Some(PortTaken)
      else None
    case Delete(id) => if |Without(sites, id)| == |sites| then Some(NotFound) else None
  }

  function After(sites: seq<Site>, op: Op): seq<Site> {
    if Refusal(sites, op).Some? then sites
    else match op
      case Create(item, valid) => sites + [NormalizeSite(item)]
      case Update(id, patch, valid) =>
        var i := FirstWith(sites, id);
        sites[i := Patched(sites[i], NormalizeSite(patch))]
      case SetEnabled(id, on) =>
        var i := FirstWith(sites, id);
        sites[i := sites[i].(enabled := on)]
      case Delete(id) => Without(sites, id)
  }

  method AnyClaimed(claimed: set<string>, domains: seq<string>) returns (any: bool)
    ensures any <==> exists d :: d in claimed && d in domains
  {
    for k := 0 to |domains|
      invariant forall m :: 0 <= m < k ==> domains[m] !in claimed
    {
      if domains[k] in claimed {
        return true;
      }
    }
    return false;
  }

  class Store {
    var sites: seq<Site>

    constructor ()
      ensures sites == []
    {
      sites := [];
    }

    method EnsureDomainUniqueness(item: Site, exceptID: string) returns (ok: bool)
      ensures ok == DomainsFree(sites, item, exceptID)
    {
      hide AllDomains;
      var claimed := set d | d in AllDomains(item);
      for i := 0 to |sites|
        invariant DomainsFree(sites[..i], item, exceptID)
      {
        var existing := sites[i];
        if existing.id == exceptID || existing.node != item.node {
          DomainsFreeOfOneMore(sites[..i], existing, item, exceptID);
          assert sites[..i + 1] == sites[..i] + [existing];
          continue;
        }
        var shared := AnyClaimed(claimed, AllDomains(existing));
        assert shared == SharesDomain(item, existing);
        if shared {
          assert existing in sites;
          return false;
        }
        DomainsFreeOfOneMore(sites[..i], existing, item, exceptID);
        assert sites[..i + 1] == sites[..i] + [existing];
      }
      assert sites[..|sites|] == sites;
      return true;
    }

    method EnsureListenPortUniqueness(item: Site, exceptID: string) returns (ok: bool)
      ensures ok == PortFree(sites, item, exceptID)
    {
      if !item.enabled || item.port <= 0 {
        return true;
      }
      for i := 0 to |sites|
        invariant PortFree(sites[..i], item, exceptID)
      {
        var existing := sites[i];
        if existing.id == exceptID || !existing.enabled || existing.node != item.node {
          continue;
        }
        if existing.port == item.port {
          return false;
        }
      }
      assert sites[..|sites|] == sites;
      return true;
    }

    /** The check on loading: ports of enabled sites, whatever the node. */
    method EnsureExistingPortUniqueness() returns (ok: bool)
      ensures ok == PortsUniqueEverywhere(sites)
    {
      var claimed: set<int> := {};
      for i := 0 to |sites|
        invariant PortsUniqueEverywhere(sites[..i])
        invariant forall p :: p in claimed <==> exists k :: 0 <= k < i && Listens(sites[k], p)
      {
        var existing := sites[i];
        if !existing.enabled || existing.port <= 0 {
          continue;
        }
        if existing.port in claimed {
          var k :| 0 <= k < i && Listens(sites[k], existing.port);
          assert SharesPort(sites[k], sites[i]);
          return false;
        }
        assert Listens(sites[i], existing.port);
        claimed := claimed + {existing.port};
      }
      assert sites[..|sites|] == sites;
      return true;
    }

    /** Validation, then domains, then ports. */
    method Check(item: Site, valid: bool, exceptID: string) returns (e: Option<Error>)
      ensures e == Rejection(sites, item, valid, exceptID)
    {
      if !valid {
        return Some(Invalid);
      }
      var free := EnsureDomainUniqueness(item, exceptID);
      if !free {
        return Some(DomainTaken);
      }
      free := EnsureListenPortUniqueness(item, exceptID);
      if !free {
        return Some(PortTaken);
      }
      return None;
    }

    /** Memory has changed even when saving then fails; so in the other operations. */
    method CreateSite(item: Site, valid: bool, saved: bool) returns (r: Result<Site, Error>)
      modifies this
      ensures sites == After(old(sites), Create(item, valid))
      ensures var refusal := Refusal(old(sites), Create(item, valid));
              r == if refusal.Some? then Failure(refusal.value)
                   else if saved then Success(sites[|old(sites)|]) else Failure(NotSaved)
    {
      var normalized := NormalizeSite(item);
      var rejection := Check(normalized, valid, "");
      if rejection.Some? {
        return Failure(rejection.value);
      }
      sites := sites + [normalized];
      return if saved then Success(normalized) else Failure(NotSaved);
    }

    method UpdateSite(id: string, patch: Site, valid: bool, saved: bool) returns (r: Result<Site, Error>)
      modifies this
      ensures sites == After(old(sites), Update(id, patch, valid))
      ensures var refusal := Refusal(old(sites), Update(id, patch, valid));
              r == if refusal.Some? then Failure(refusal.value)
                   else if saved then Success(sites[FirstWith(old(sites), id)]) else Failure(NotSaved)
    {
      hide NormalizeSite, DomainsFree, PortFree;
      var normalized := NormalizeSite(patch);
      var rejection := Check(normalized, valid, id);
      if rejection.Some? {
        return Failure(rejection.value);
      }
      for i := 0 to |sites|
        invariant sites == old(sites) && FirstWith(sites, id) >= i
      {
        if sites[i].id != id {
          continue;
        }
        var item := Patched(sites[i], normalized);
        sites := sites[i := item];
        return if saved then Success(item) else Failure(NotSaved);
      }
      return Failure(NotFound);
    }

    method SetSiteEnabled(id: string, on: bool, saved: bool) returns (r: Result<Site, Error>)
      modifies this
      ensures sites == After(old(sites), SetEnabled(id, on))
      ensures var i, refusal := FirstWith(old(sites), id), Refusal(old(sites), SetEnabled(id, on));
              r == if refusal.Some? then Failure(refusal.value) else if saved then Success(sites[i]) else Failure(NotSaved)
    {
      for i := 0 to |sites|
        invariant sites == old(sites) && FirstWith(sites, id) >= i
      {
        var item := sites[i];
        if item.id != id {
          continue;
        }
        if on {
          var free := EnsureListenPortUniqueness(item.(enabled := true), id);
          if !free {
            return Failure(PortTaken);
          }
        }
        item := item.(enabled := on);
        sites := sites[i := item];
        return if saved then Success(item) else Failure(NotSaved);
      }
      return Failure(NotFound);
    }

    method DeleteSite(id: string, saved: bool) returns (r: Result<(), Error>)
      modifies this
      ensures sites == After(old(sites), Delete(id))
      ensures var refusal := Refusal(old(sites), Delete(id));
              r == if refusal.Some? then Failure(refusal.value) else if saved then Success(()) else Failure(NotSaved)
    {
      var n := |sites|;
      var kept: seq<Site> := [];
      for i := 0 to |sites|
        invariant sites == old(sites) && kept == Without(sites[..i], id)
      {
        assert sites[..i + 1][..i] == sites[..i];
        if sites[i].id != id {
          kept := kept + [sites[i]];
        }
      }
      assert sites[..|sites|] == sites;
      WithoutIsFilter(sites, id);
      NothingDeleted(sites, id);
      sites := kept;
      if |sites| == n {
        return Failure(NotFound);
      }
      return if saved then Success(()) else Failure(NotSaved);
    }
  }

  /** Deleting keeps every other site, in order, and nothing else; all are kept if none has the ID. */
  lemma {:induction false} WithoutIsFilter(sites: seq<Site>, id: string)
    ensures forall s :: s in Without(sites, id) <==> s in sites && s.id != id
    ensures |Without(sites, id)| <= |sites|
    ensures |Without(sites, id)| == |sites| <==> forall s :: s in sites ==> s.id != id
    ensures |Without(sites, id)| == |sites| ==> Without(sites, id) == sites
  {
    if sites != [] {
      var rest, last := sites[..|sites| - 1], sites[|sites| - 1];
      WithoutIsFilter(rest, id);
      assert sites == rest + [last];
      assert forall s :: s in sites <==> s in rest || s == last;
    }
  }

  lemma NothingDeleted(sites: seq<Site>, id: string)
    ensures |Without(sites, id)| == |sites| <==> FirstWith(sites, id) == |sites|
  {
    WithoutIsFilter(sites, id);
    var i := FirstWith(sites, id);
    assert i < |sites| ==> sites[i] in sites;
  }

  // ---------- what the operations do, field by field ----------

  ghost predicate HasID(sites: seq<Site>, id: string) {
    exists i :: 0 <= i < |sites| && sites[i].id == id
  }

  /** A site of the same node under another ID has one of the domains. */
  ghost predicate DomainClash(sites: seq<Site>, node: string, item: Site, exceptID: string) {
    exists i, d :: 0 <= i < |sites| && sites[i].id != exceptID && sites[i].node == node
                   && d in AllDomains(sites[i]) && d in AllDomains(item)
  }

  /** An enabled site of the same node under another ID has the port. */
  ghost predicate PortClash(sites: seq<Site>, node: string, port: int, exceptID: string) {
    port > 0 && exists i :: 0 <= i < |sites| && sites[i].id != exceptID && sites[i].node == node
                             && sites[i].enabled && sites[i].port == port
  }

  lemma ClashesMean(sites: seq<Site>, item: Site, exceptID: string)
    ensures DomainsFree(sites, item, exceptID) <==> !DomainClash(sites, item.node, item, exceptID)
    ensures PortFree(sites, item, exceptID) <==> !(item.enabled && PortClash(sites, item.node, item.port, exceptID))
  {
    hide AllDomains;
    if !DomainsFree(sites, item, exceptID) {
      var s :| s in sites && s.id != exceptID && s.node == item.node && SharesDomain(item, s);
      var i :| 0 <= i < |sites| && sites[i] == s;
      var d :| d in AllDomains(item) && d in AllDomains(s);
      assert d in AllDomains(sites[i]);
    }
  }

  lemma FoundExactly(sites: seq<Site>, id: string)
    ensures FirstWith(sites, id) == |sites| <==> !HasID(sites, id)
  {
  }

  /** The errors of each operation, in the order of its checks. */
  lemma {:induction false} RefusalMeans(sites: seq<Site>, op: Op)
    ensures match op
            case Create(item, valid) =>
              var stored := NormalizeSite(item);
              Refusal(sites, op) ==
              if !valid then Some(Invalid)
              else if DomainClash(sites, stored.node, stored, "") then Some(DomainTaken)
              else if stored.enabled && PortClash(sites, stored.node, stored.port, "") then Some(PortTaken)
              else None
            case Update(id, patch, valid) =>
              var stored := NormalizeSite(patch);
              Refusal(sites, op) ==
              if !valid then Some(Invalid)
              else if DomainClash(sites, stored.node, stored, id) then Some(DomainTaken)
              else if stored.enabled && PortClash(sites, stored.node, stored.port, id) then Some(PortTaken)
              else if !HasID(sites, id) then Some(NotFound)
              else None
            case SetEnabled(id, on) =>
              Refusal(sites, op) ==
              if !HasID(sites, id) then Some(NotFound)
              else
                var was := sites[FirstWith(sites, id)];
                if on && PortClash(sites, was.node, was.port, id) then Some(PortTaken) else None
            case Delete(id) =>
              Refusal(sites, op) == if !HasID(sites, id) then Some(NotFound) else None
  {
    hide NormalizeSite, DomainsFree, PortFree, DomainClash, PortClash, AllDomains;
    match op
    case Create(item, valid) => ClashesMean(sites, NormalizeSite(item), "");
    case Update(id, patch, valid) =>
      ClashesMean(sites, NormalizeSite(patch), id);
      FoundExactly(sites, id);
    case SetEnabled(id, on) =>
      FoundExactly(sites, id);
      if HasID(sites, id) {
        ClashesMean(sites, sites[FirstWith(sites, id)].(enabled := true), id);
      }
    case Delete(id) =>
      NothingDeleted(sites, id);
      FoundExactly(sites, id);
  }

  /** What is stored: the node's and the domains' normal forms, the extra domains once each and in order, and
      everything else as given. */
  lemma {:induction false} StoredIs(s: Site)
    ensures var t := NormalizeSite(s);
            && t.id == s.id && t.port == s.port && t.enabled == s.enabled && t.l4 == s.l4 && t.config == s.config
            && SameNode(t.node, s.node) && t.domain == NormalizeHost(s.domain)
            && Sorted(t.extras) && Distinct(t.extras)
            && forall d :: d in t.extras <==>
                 d != "" && d != t.domain && exists i :: 0 <= i < |s.extras| && NormalizeHost(s.extras[i]) == d
  {
    hide NormalizeHost, SameNode, NormalizeID;
    NormalizeIDTwice(s.node);
    NodesAreSame(NormalizeID(s.node), s.node);
    var first := NormalizeHost(s.domain);
    var e := Extras(first, s.extras);
    SortFacts(e);
    ExtraDomains(first, s.extras);
    forall d
      ensures d in Sort(e) <==> d != "" && d != first && exists i :: 0 <= i < |s.extras| && NormalizeHost(s.extras[i]) == d
    {
      SortMembers(e, d);
      ExtrasMean(first, s.extras, d);
    }
  }

  /** Only the first site with the ID differs. */
  ghost predicate OnlyFirstDiffers(sites: seq<Site>, s': seq<Site>, id: string, i: nat) {
    && i < |sites| == |s'| && sites[i].id == id
    && (forall k :: 0 <= k < i ==> sites[k].id != id)
    && forall k :: 0 <= k < |sites| && k != i ==> s'[k] == sites[k]
  }

  /** ID and protocol stay; all else is the patch's. */
  ghost predicate TakesPatch(was: Site, now: Site, patch: Site) {
    && now.id == was.id && now.l4 == was.l4
    && now.node == patch.node && now.domain == patch.domain && now.extras == patch.extras
    && now.port == patch.port && now.enabled == patch.enabled && now.config == patch.config
  }

  /** What an accepted operation changes, and that nothing else does. */
  lemma {:induction false} ChangesAre(sites: seq<Site>, op: Op)
    requires Refusal(sites, op).None?
    ensures var s' := After(sites, op);
            match op
            case Create(item, _) => s' == sites + [NormalizeSite(item)]
            case Update(id, patch, _) =>
              exists i: nat :: OnlyFirstDiffers(sites, s', id, i) && TakesPatch(sites[i], s'[i], NormalizeSite(patch))
            case SetEnabled(id, on) =>
              exists i: nat :: OnlyFirstDiffers(sites, s', id, i) && TakesPatch(sites[i], s'[i], sites[i].(enabled := on))
            case Delete(id) => forall s :: s in s' <==> s in sites && s.id != id
  {
    var s' := After(sites, op);
    match op
    case Create(item, valid) =>
    case Update(id, patch, valid) => assert OnlyFirstDiffers(sites, s', id, FirstWith(sites, id));
    case SetEnabled(id, on) => assert OnlyFirstDiffers(sites, s', id, FirstWith(sites, id));
    case Delete(id) => WithoutIsFilter(sites, id);
  }
}
