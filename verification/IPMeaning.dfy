/** What access rules mean, read straight off the settings, and what cleaning lists, compiling one source
    and merging country lists keep of it. */
module IPMeaning {
  import opened Common
  import opened Text
  import opened IPRules
  import opened IPAccess
  import opened IPDecision

  // ---------- the direct reading ----------

  /** The rules of one source as sets of trimmed values; addresses of bad reputation are denied. */
  datatype Meant = Meant(
    allowFirst: bool, allow: set<string>, deny: set<string>, allowASNs: set<string>, denyASNs: set<string>)

  ghost function Meaning(allowFirst: bool, l: Lists): Meant {
    Meant(allowFirst, Values(l.allow), Values(l.deny) + Values(l.denyReputation),
          Values(l.allowASNs), Values(l.denyASNs))
  }

  ghost predicate ValidRules(net: Net, m: Meant) {
    && (forall r :: r in m.allow + m.deny ==> net.valid(r))
    && (forall a :: a in m.allowASNs + m.denyASNs ==> net.asn(a) != BadASN)
  }

  ghost predicate Covers(net: Net, rules: set<string>, ip: string) {
    exists r :: r in rules && net.contains(r, ip)
  }

  ghost predicate CoversASN(net: Net, asns: set<string>, asn: nat) {
    asn != 0 && exists a :: a in asns && net.asn(a) == ASN(asn)
  }

  ghost predicate AllowsSomething(net: Net, m: Meant) {
    m.allow != {} || exists a :: a in m.allowASNs && net.asn(a).ASN?
  }

  ghost function Says(net: Net, m: Meant, ip: string, asn: nat): Verdict {
    var admits := Covers(net, m.allow, ip) || CoversASN(net, m.allowASNs, asn);
    var refuses := Covers(net, m.deny, ip) || CoversASN(net, m.denyASNs, asn);
    if admits && (m.allowFirst || !refuses) then Admit else if refuses then Refuse else Silent
  }

  /** The task is enabled and names the rule set, and its list is the deny list or any other text. */
  ghost predicate Concerns(t: CountryTask, id: string, deny: bool) {
    t.enabled && Trim(t.ruleSetID) == id && (EqualFold(Trim(t.list), "deny") <==> deny)
  }

  /** The addresses enabled country tasks feed into a rule set's deny list, or its allow list. */
  ghost function CountryValues(tasks: seq<CountryTask>, id: string, deny: bool): set<string> {
    set t, c | t in tasks && Concerns(t, id, deny) && c in t.cidrs && Trim(c) != "" :: Trim(c)
  }

  /** A conflict policy lets deny rules win only if it says so in one of three spellings. */
  ghost predicate DenyAsked(conflict: string) {
    || EqualFold(Trim(conflict), "deny_first")
    || EqualFold(Trim(conflict), "deny-first")
    || EqualFold(Trim(conflict), "denyfirst")
  }

  lemma ConflictMeans(conflict: string)
    ensures AllowFirst(conflict) <==> !DenyAsked(conflict)
  {
    assert Lower("deny_first") == "deny_first" && Lower("deny-first") == "deny-first" && Lower("denyfirst") == "denyfirst";
  }

  /** Of several rule sets with an ID the last one configured counts. */
  lemma {:induction false} LastRuleSetCounts(sets: seq<RuleSet>, id: string, r: RuleSet)
    ensures RuleSetOf(sets, id) == Some(r) <==>
            exists i :: 0 <= i < |sets| && sets[i] == r && Trim(r.id) == id && forall j :: i < j < |sets| ==> Trim(sets[j].id) != id
  {
    if sets != [] {
      var n := |sets| - 1;
      LastRuleSetCounts(sets[..n], id, r);
      assert forall i :: 0 <= i < n ==> sets[..n][i] == sets[i];
    }
  }

  ghost function MeantBy(site: Site, st: Settings, kind: Kind, id: string): Meant
    requires kind.SiteKind? || RuleSetOf(st.ruleSets, id).Some?
  {
    match kind
    case SiteKind => Meaning(false, site.access)
    case CustomKind => var r := RuleSetOf(st.ruleSets, id).value; Meaning(!DenyAsked(r.conflict), r.lists)
    case CountryKind =>
      Meant(!DenyAsked(RuleSetOf(st.ruleSets, id).value.conflict),
            CountryValues(st.tasks, id, false), CountryValues(st.tasks, id, true), {}, {})
  }

  ghost predicate Known(st: Settings, ids: seq<string>) {
    forall i :: 0 <= i < |ids| ==> ids[i] != "" && RuleSetOf(st.ruleSets, ids[i]).Some?
  }

  ghost function ReadingOfKind(site: Site, st: Settings, kind: Kind, ids: seq<string>): seq<Meant>
    requires Known(st, ids)
  {
    if kind.SiteKind? then [MeantBy(site, st, kind, "")]
    else seq(|ids|, i requires 0 <= i < |ids| => MeantBy(site, st, kind, ids[i]))
  }

  /** The sources in the configured order of kinds, and within a kind in the given order of rule sets. */
  ghost function Reading(site: Site, st: Settings, order: seq<Kind>, ids: seq<string>): seq<Meant>
    requires Known(st, ids)
  {
    if order == [] then []
    else
      Reading(site, st, order[..|order| - 1], ids) + ReadingOfKind(site, st, order[|order| - 1], ids)
  }

  ghost predicate FirstToSpeak(net: Net, ms: seq<Meant>, ip: string, asn: nat, i: nat)
    requires i < |ms|
  {
    Says(net, ms[i], ip, asn) != Silent && forall j :: 0 <= j < i ==> Says(net, ms[j], ip, asn) == Silent
  }

  ghost predicate SomeAllow(net: Net, ms: seq<Meant>) {
    exists i :: 0 <= i < |ms| && AllowsSomething(net, ms[i])
  }

  /** The first source to speak decides; if none does, or the address cannot be read, access is denied
      exactly when some allow rule exists. */
  ghost predicate DirectlyDenied(net: Net, ms: seq<Meant>, ip: string, asn: nat) {
    if net.isIP(ip) && exists i :: 0 <= i < |ms| && FirstToSpeak(net, ms, ip, asn, i)
    then exists i :: 0 <= i < |ms| && FirstToSpeak(net, ms, ip, asn, i) && Says(net, ms[i], ip, asn) == Refuse
    else SomeAllow(net, ms)
  }

  ghost predicate DistinctIgnoringCase(ids: seq<string>) {
    forall i, j :: 0 <= i < j < |ids| ==> Lower(ids[i]) != Lower(ids[j])
  }

  /** The places of the selected IDs, each once, by descending priority of the rule set configured under the
      ID, in order of selection among equals. */
  ghost predicate Ranked(st: Settings, ids: seq<string>, ranks: seq<nat>) {
    && Known(st, ids) && EachOnce(ranks, |ids|)
    && (forall i, j :: 0 <= i < j < |ranks| ==> Outranks(st, ids, ranks[i], ranks[j]))
  }

  /** The places below n, each once. */
  ghost predicate EachOnce(ranks: seq<nat>, n: nat) {
    Distinct(ranks) && (forall i :: 0 <= i < |ranks| ==> ranks[i] < n) && forall k: nat :: k < n ==> k in ranks
  }

  ghost predicate Outranks(st: Settings, ids: seq<string>, k: nat, l: nat)
    requires Known(st, ids) && k < |ids| && l < |ids|
  {
    var a, b := RuleSetOf(st.ruleSets, ids[k]).value.priority, RuleSetOf(st.ruleSets, ids[l]).value.priority;
    a > b || (a == b && k < l)
  }

  /** The selected IDs in that order. */
  function AtRanks(ids: seq<string>, ranks: seq<nat>): seq<string>
    requires forall i :: 0 <= i < |ranks| ==> ranks[i] < |ids|
  {
    seq(|ranks|, i requires 0 <= i < |ranks| => ids[ranks[i]])
  }

  function IDsOf(ordered: seq<Selected>): seq<string> {
    seq(|ordered|, i requires 0 <= i < |ordered| => ordered[i].ruleSet.id)
  }

  // ---------- lists keep their meaning ----------

  lemma {:induction false} ParsedIPsHold(net: Net, items: seq<string>)
    ensures ParsedIPs(net, items).Some? <==> forall v :: v in Values(items) ==> net.valid(v)
    ensures ParsedIPs(net, items).Some? ==> forall v :: v in ParsedIPs(net, items).value <==> v in Values(items)
  {
    if items != [] {
      var rest, last := items[..|items| - 1], items[|items| - 1];
      ParsedIPsHold(net, rest);
      assert items == rest + [last];
      ValuesOfConcat(rest, [last]);
      ValuesOfOne(last);
    }
  }

  lemma {:induction false} ParsedASNsHold(net: Net, items: seq<string>)
    ensures ParsedASNs(net, items).Some? <==> forall v :: v in Values(items) ==> net.asn(v) != BadASN
    ensures ParsedASNs(net, items).Some? ==>
      forall n :: n in ParsedASNs(net, items).value <==> exists v :: v in Values(items) && net.asn(v) == ASN(n)
  {
    if items != [] {
      var rest, last := items[..|items| - 1], items[|items| - 1];
      ParsedASNsHold(net, rest);
      assert items == rest + [last];
      ValuesOfConcat(rest, [last]);
      ValuesOfOne(last);
    }
  }

  /** Compiling one source keeps what it says, whether it compiles, and whether it allows anything. */
  lemma {:induction false} CompiledListsMean(net: Net, source: string, allowFirst: bool, l: Lists, ip: string, asn: nat)
    ensures var c, m := CompiledLists(net, source, allowFirst, l), Meaning(allowFirst, l);
            && (c.Some? <==> ValidRules(net, m))
            && (c.Some? ==> SourceVerdict(net, c.value, ip, asn) == Says(net, m, ip, asn))
            && (c.Some? ==> (HasAllow(c.value) <==> AllowsSomething(net, m)))
  {
    ParsedIPsHold(net, l.allow);
    ParsedIPsHold(net, l.deny);
    ParsedIPsHold(net, l.denyReputation);
    ParsedASNsHold(net, l.allowASNs);
    ParsedASNsHold(net, l.denyASNs);
    var c := CompiledLists(net, source, allowFirst, l);
    if c.Some? {
      assert c.value.allow != [] ==> c.value.allow[0] in Values(l.allow);
    }
  }

  lemma {:induction false} CleanKeepsMeaning(allowFirst: bool, l: Lists)
    ensures Meaning(allowFirst, Clean(l)) == Meaning(allowFirst, l)
    ensures Clean(l) == NO_RULES ==> Meaning(allowFirst, l) == Meant(allowFirst, {}, {}, {}, {})
  {
    MergeKeepsValues(l.allow);
    MergeKeepsValues(l.deny);
    MergeKeepsValues(l.allowASNs);
    MergeKeepsValues(l.denyASNs);
    MergeKeepsValues(l.denyReputation);
  }

  ghost predicate Feeding(tasks: seq<CountryTask>, id: string, deny: bool, v: string) {
    exists t :: t in tasks && Concerns(t, id, deny) && v in Values(t.cidrs)
  }

  lemma CountryValuesAre(tasks: seq<CountryTask>, id: string, deny: bool, v: string)
    ensures v in CountryValues(tasks, id, deny) <==> Feeding(tasks, id, deny, v)
  {
    if v in CountryValues(tasks, id, deny) {
      var t, c :| t in tasks && Concerns(t, id, deny) && c in t.cidrs && Trim(c) != "" && Trim(c) == v;
      assert v in Values(t.cidrs);
    }
  }

  lemma FeedingOneMore(rest: seq<CountryTask>, t: CountryTask, id: string, deny: bool, v: string)
    ensures Feeding(rest + [t], id, deny, v) <==>
            Feeding(rest, id, deny, v) || (Concerns(t, id, deny) && v in Values(t.cidrs))
  {
    assert t in rest + [t];
    if Feeding(rest, id, deny, v) {
      var u :| u in rest && Concerns(u, id, deny) && v in Values(u.cidrs);
      assert u in rest + [t];
    }
  }

  lemma {:induction false} CountryListsMean(tasks: seq<CountryTask>, id: string, deny: bool, v: string)
    ensures v in Values(CountryOf(tasks, id, deny)) <==> v in CountryValues(tasks, id, deny)
  {
    CountryValuesAre(tasks, id, deny, v);
    if tasks != [] {
      var rest, t := tasks[..|tasks| - 1], tasks[|tasks| - 1];
      CountryListsMean(rest, id, deny, v);
      CountryValuesAre(rest, id, deny, v);
      assert tasks == rest + [t];
      assert Lower("deny") == "deny";
      assert Feeds(t, id, deny) <==> Concerns(t, id, deny);
      FeedingOneMore(rest, t, id, deny, v);
      var before := CountryOf(rest, id, deny);
      ValuesOfConcat(before, t.cidrs);
      MergeKeepsValues(before + t.cidrs);
    }
  }
}
