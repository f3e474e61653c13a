/** Resolving a site's access rules against the settings.

    The effective rule sets, those the site selects, by priority, and the sources of rules that contribute
    to its policy, in the configured order. */
module IPAccess {
  import opened Common
  import opened Text
  import opened IPRules

  // ---------- effective rule sets ----------

  datatype Effective = Effective(
    id: string, priority: int, allowFirst: bool, manual: Lists, countryAllow: seq<string>, countryDeny: seq<string>)

  /** The last configured rule set with this ID. */
  function RuleSetOf(sets: seq<RuleSet>, id: string): Option<RuleSet> {
    if sets == [] then None
    else if Trim(sets[|sets| - 1].id) == id then Some(sets[|sets| - 1])
    else RuleSetOf(sets[..|sets| - 1], id)
  }

  predicate Feeds(t: CountryTask, id: string, deny: bool) {
    t.enabled && Trim(t.ruleSetID) == id && (Lower(Trim(t.list)) == "deny") == deny
  }

  /** The country lists the enabled tasks have merged for a rule set. */
  function CountryOf(tasks: seq<CountryTask>, id: string, deny: bool): seq<string> {
    if tasks == [] then []
    else
      var before, t := CountryOf(tasks[..|tasks| - 1], id, deny), tasks[|tasks| - 1];
      if Feeds(t, id, deny) && t.cidrs != [] then Merge(before + t.cidrs) else before
  }

  function EffectiveAfter(st: Settings, n: nat, id: string): Option<Effective>
    requires n <= |st.tasks|
  {
    if id == "" || RuleSetOf(st.ruleSets, id).None? then None
    else
      var r := RuleSetOf(st.ruleSets, id).value;
      Some(Effective(id, r.priority, AllowFirst(r.conflict), r.lists,
                     CountryOf(st.tasks[..n], id, false), CountryOf(st.tasks[..n], id, true)))
  }

  function EffectiveOf(st: Settings, id: string): Option<Effective> {
    EffectiveAfter(st, |st.tasks|, id)
  }

  ghost predicate Holds(m: map<string, Effective>, st: Settings, n: nat)
    requires n <= |st.tasks|
  {
    forall id :: EffectiveAfter(st, n, id) == if id in m then Some(m[id]) else None
  }

  function Bare(r: RuleSet): Effective {
    Effective(Trim(r.id), r.priority, AllowFirst(r.conflict), r.lists, [], [])
  }

  lemma NothingHeld()
    ensures Holds(map[], Settings([], [], []), 0)
  {
  }

  lemma OneRuleSet(m: map<string, Effective>, sets: seq<RuleSet>, i: nat)
    requires i < |sets| && Holds(m, Settings(sets[..i], [], []), 0)
    ensures var id := Trim(sets[i].id); Holds(if id == "" then m else m[id := Bare(sets[i])], Settings(sets[..i + 1], [], []), 0)
  {
    hide Trim, AllowFirst;
    assert sets[..i + 1][..i] == sets[..i];
  }

  lemma AllRuleSets(m: map<string, Effective>, st: Settings)
    requires Holds(m, Settings(st.ruleSets[..|st.ruleSets|], [], []), 0)
    ensures Holds(m, st, 0)
  {
    assert st.ruleSets[..|st.ruleSets|] == st.ruleSets;
    forall id
      ensures EffectiveAfter(st, 0, id) == EffectiveAfter(Settings(st.ruleSets, [], []), 0, id)
    {
    }
  }

  method BuildEffectiveRuleSetMap(st: Settings) returns (out: map<string, Effective>)
    ensures forall id :: EffectiveOf(st, id) == if id in out then Some(out[id]) else None
  {
    hide EffectiveAfter, Trim, AllowFirst;
    out := map[];
    NothingHeld();
    for i := 0 to |st.ruleSets|
      invariant Holds(out, Settings(st.ruleSets[..i], [], []), 0)
    {
      var item := st.ruleSets[i];
      OneRuleSet(out, st.ruleSets, i);
      var id := Trim(item.id);
      if id == "" {
        continue;
      }
      out := out[id := Effective(id, item.priority, AllowFirst(item.conflict), item.lists, [], [])];
    }
    AllRuleSets(out, st);
    for i := 0 to |st.tasks|
      invariant Holds(out, st, i)
    {
      out := ApplyTask(out, st, i, st.tasks[i]);
    }
  }

  /** A rule set with the addresses of a country update merged into the list it feeds. */
  function WithCountry(e: Effective, t: CountryTask): Effective {
    if Lower(Trim(t.list)) == "deny" then e.(countryDeny := Merge(e.countryDeny + t.cidrs))
    else e.(countryAllow := Merge(e.countryAllow + t.cidrs))
  }

  method ApplyTask(before: map<string, Effective>, ghost st: Settings, ghost i: nat, task: CountryTask)
    returns (out: map<string, Effective>)
    requires i < |st.tasks| && task == st.tasks[i] && Holds(before, st, i)
    ensures Holds(out, st, i + 1)
  {
    hide Holds, Trim, Lower;
    out := before;
    var id := Trim(task.ruleSetID);
    if !task.enabled || id == "" || id !in out || |task.cidrs| == 0 {
      NoTarget(before, st, i);
      return;
    }
    var target := MergeCountry(out[id], task);
    out := out[id := target];
    OneTarget(before, st, i);
  }

  /** One more task merges into the lists of the rule set it names, and into no other. */
  lemma EffectiveOneMore(st: Settings, i: nat, id: string)
    requires i < |st.tasks|
    ensures var t, e := st.tasks[i], EffectiveAfter(st, i, id);
            EffectiveAfter(st, i + 1, id) ==
            if e.Some? && t.enabled && Trim(t.ruleSetID) == id && t.cidrs != [] then Some(WithCountry(e.value, t)) else e
  {
    hide RuleSetOf, Merge, AllowFirst, Trim, Lower;
    assert st.tasks[..i + 1][..i] == st.tasks[..i];
  }

  lemma NoTarget(m: map<string, Effective>, st: Settings, i: nat)
    requires i < |st.tasks| && Holds(m, st, i)
    requires var t := st.tasks[i]; !t.enabled || Trim(t.ruleSetID) == "" || Trim(t.ruleSetID) !in m || t.cidrs == []
    ensures Holds(m, st, i + 1)
  {
    hide EffectiveAfter, Trim;
    forall id
      ensures EffectiveAfter(st, i + 1, id) == if id in m then Some(m[id]) else None
    {
      EffectiveOneMore(st, i, id);
      NoBlankID(st, i);
    }
  }

  lemma NoBlankID(st: Settings, n: nat)
    requires n <= |st.tasks|
    ensures EffectiveAfter(st, n, "") == None
  {
  }

  lemma OneTarget(m: map<string, Effective>, st: Settings, i: nat)
    requires i < |st.tasks| && Holds(m, st, i) && Trim(st.tasks[i].ruleSetID) in m
    requires st.tasks[i].enabled && st.tasks[i].cidrs != []
    ensures var id := Trim(st.tasks[i].ruleSetID); Holds(m[id := WithCountry(m[id], st.tasks[i])], st, i + 1)
  {
    hide EffectiveAfter, Trim, WithCountry;
    var key := Trim(st.tasks[i].ruleSetID);
    var out := m[key := WithCountry(m[key], st.tasks[i])];
    forall id
      ensures EffectiveAfter(st, i + 1, id) == if id in out then Some(out[id]) else None
    {
      EffectiveOneMore(st, i, id);
    }
  }

  method MergeCountry(e: Effective, task: CountryTask) returns (target: Effective)
    ensures target == WithCountry(e, task)
  {
    if Lower(Trim(task.list)) == "deny" {
      var merged := MergeStringList(e.countryDeny + task.cidrs);
      return e.(countryDeny := merged);
    } else {
      var merged := MergeStringList(e.countryAllow + task.cidrs);
      return e.(countryAllow := merged);
    }
  }

  // ---------- the selected rule sets, in order ----------

  datatype Selected = Selected(index: nat, ruleSet: Effective)

  function SelectedIDs(site: Site): seq<string> {
    Merge(site.ruleSetIDs + [site.ruleSetID])
  }

  /** Every ID the site lists and the single one beside the list, each once, in the order of first mention. */
  lemma SelectionMeans(site: Site)
    ensures var ids := SelectedIDs(site);
            && Distinct(ids)
            && (forall v :: v in ids <==>
                  v != "" && (v == Trim(site.ruleSetID) || exists k :: 0 <= k < |site.ruleSetIDs| && Trim(site.ruleSetIDs[k]) == v))
            && forall i, j :: 0 <= i < j < |ids| ==>
                 OccursFirst(site.ruleSetIDs, ids[i], ids[j])
                 || (ids[j] == Trim(site.ruleSetID) && exists k :: 0 <= k < |site.ruleSetIDs| && Trim(site.ruleSetIDs[k]) == ids[i])
  {
    hide Trim;
    var all := site.ruleSetIDs + [site.ruleSetID];
    MergeInOrder(all);
    hide Merge;
    var ids := SelectedIDs(site);
    assert all[|site.ruleSetIDs|] == site.ruleSetID;
    assert forall k :: 0 <= k < |site.ruleSetIDs| ==> all[k] == site.ruleSetIDs[k];
    forall i, j | 0 <= i < j < |ids|
      ensures OccursFirst(site.ruleSetIDs, ids[i], ids[j])
              || (ids[j] == Trim(site.ruleSetID) && exists k :: 0 <= k < |site.ruleSetIDs| && Trim(site.ruleSetIDs[k]) == ids[i])
    {
      assert OccursFirst(all, ids[i], ids[j]);
      var k :| 0 <= k < |all| && Trim(all[k]) == ids[i] && forall l :: 0 <= l <= k ==> Trim(all[l]) != ids[j];
      assert ids[j] in ids;
      var l :| 0 <= l < |all| && Trim(all[l]) == ids[j];
      assert k < l;
    }
  }

  /** None if an ID names no rule set. */
  function Select(st: Settings, ids: seq<string>): Option<seq<Selected>> {
    if ids == [] then Some([])
    else
      var n := |ids| - 1;
      var before, e := Select(st, ids[..n]), EffectiveOf(st, ids[n]);
      if before.None? || e.None? then None else Some(before.value + [Selected(n, e.value)])
  }

  /** Higher priority first, the order of selection among equals. */
  predicate Ahead(a: Selected, b: Selected) {
    a.ruleSet.priority > b.ruleSet.priority || (a.ruleSet.priority == b.ruleSet.priority && a.index < b.index)
  }

  ghost predicate InOrder(s: seq<Selected>) {
    forall i, j :: 0 <= i < j < |s| ==>
      && s[i].ruleSet.priority >= s[j].ruleSet.priority
      && (s[i].ruleSet.priority == s[j].ruleSet.priority ==> s[i].index < s[j].index)
  }

  function InsertSelected(s: seq<Selected>, x: Selected): seq<Selected> {
    if s == [] || Ahead(x, s[0]) then [x] + s else [s[0]] + InsertSelected(s[1..], x)
  }

  /** sort.SliceStable by priority, then by order of selection. */
  function SortSelected(s: seq<Selected>): seq<Selected> {
    if s == [] then [] else InsertSelected(SortSelected(s[..|s| - 1]), s[|s| - 1])
  }

  ghost predicate IndicesBelow(s: seq<Selected>, n: nat) {
    forall i :: 0 <= i < |s| ==> s[i].index < n
  }

  lemma {:induction false} InsertAdds(s: seq<Selected>, x: Selected)
    ensures multiset(InsertSelected(s, x)) == multiset(s) + multiset{x}
  {
    if s != [] && !Ahead(x, s[0]) {
      assert s == [s[0]] + s[1..];
      InsertAdds(s[1..], x);
    }
  }

  lemma {:induction false} InsertKeepsOrder(s: seq<Selected>, x: Selected)
    requires InOrder(s) && IndicesBelow(s, x.index)
    ensures InOrder(InsertSelected(s, x))
  {
    if s != [] && !Ahead(x, s[0]) {
      InsertKeepsOrder(s[1..], x);
      InsertAdds(s[1..], x);
      AheadOfAll(s[0], s[1..], x, InsertSelected(s[1..], x));
    }
  }

  lemma AheadOfAll(h: Selected, s: seq<Selected>, x: Selected, t: seq<Selected>)
    requires InOrder([h] + s) && h.index < x.index && h.ruleSet.priority >= x.ruleSet.priority
    requires InOrder(t) && multiset(t) == multiset(s) + multiset{x}
    ensures InOrder([h] + t)
  {
    forall j | 0 <= j < |t|
      ensures h.ruleSet.priority >= t[j].ruleSet.priority
      ensures h.ruleSet.priority == t[j].ruleSet.priority ==> h.index < t[j].index
    {
      assert t[j] in multiset(t);
      if t[j] != x {
        var k :| 0 <= k < |s| && s[k] == t[j];
        assert ([h] + s)[0] == h && ([h] + s)[k + 1] == t[j];
      }
    }
  }

  lemma {:induction false} SortFactsSelected(st: Settings, ids: seq<string>)
    requires Select(st, ids).Some?
    ensures var s := Select(st, ids).value;
            && |s| == |ids| && IndicesBelow(s, |ids|)
            && multiset(SortSelected(s)) == multiset(s) && InOrder(SortSelected(s))
    ensures var t := SortSelected(Select(st, ids).value);
            forall i, j :: 0 <= i < j < |t| ==>
              || t[i].ruleSet.priority > t[j].ruleSet.priority
              || (t[i].ruleSet.priority == t[j].ruleSet.priority && t[i].index < t[j].index)
  {
    hide EffectiveOf, InsertSelected;
    if ids != [] {
      var n := |ids| - 1;
      SortFactsSelected(st, ids[..n]);
      var before, s := Select(st, ids[..n]).value, Select(st, ids).value;
      assert s[..n] == before && s == before + [s[n]];
      forall i | 0 <= i < |SortSelected(before)|
        ensures SortSelected(before)[i].index < n
      {
        assert SortSelected(before)[i] in multiset(before);
      }
      InsertKeepsOrder(SortSelected(before), s[n]);
      InsertAdds(SortSelected(before), s[n]);
    }
  }

  lemma HeadIsFirst(a: seq<Selected>, x: Selected)
    requires InOrder(a) && x in a
    ensures x == a[0] || a[0].ruleSet.priority > x.ruleSet.priority
            || (a[0].ruleSet.priority == x.ruleSet.priority && a[0].index < x.index)
  {
  }

  lemma SameHead(a: seq<Selected>, b: seq<Selected>)
    requires InOrder(a) && InOrder(b) && multiset(a) == multiset(b) && a != [] && b != []
    ensures a[0] == b[0]
  {
    assert a[0] in multiset(b) && b[0] in multiset(a);
    HeadIsFirst(a, b[0]);
    HeadIsFirst(b, a[0]);
  }

  lemma SameTail(a: seq<Selected>, b: seq<Selected>)
    requires multiset(a) == multiset(b) && a != [] && b != [] && a[0] == b[0]
    ensures multiset(a[1..]) == multiset(b[1..])
  {
    assert a == [a[0]] + a[1..] && b == [b[0]] + b[1..];
    assert multiset(a[1..]) == multiset(a) - multiset{a[0]};
  }

  /** There is only one such order. */
  lemma {:induction false} OrderUnique(a: seq<Selected>, b: seq<Selected>)
    requires InOrder(a) && InOrder(b) && multiset(a) == multiset(b)
    ensures a == b
    decreases |a|
  {
    assert |multiset(a)| == |a| && |multiset(b)| == |b|;
    if a != [] {
      SameHead(a, b);
      SameTail(a, b);
      OrderUnique(a[1..], b[1..]);
      assert a == [a[0]] + a[1..] && b == [b[0]] + b[1..];
    }
  }

  // ---------- resolving ----------

  function CustomSource(e: Effective): Source {
    Source("custom:" + e.id, e.allowFirst, e.manual)
  }

  function CountrySource(e: Effective): Source {
    Source("country:" + e.id, e.allowFirst, NO_RULES.(allow := e.countryAllow, deny := e.countryDeny))
  }

  function Block(site: Site, kind: Kind, ordered: seq<Selected>): seq<Source> {
    match kind
    case SiteKind => [Source("site", false, site.access)]
    case CustomKind => seq(|ordered|, i requires 0 <= i < |ordered| => CustomSource(ordered[i].ruleSet))
    case CountryKind => seq(|ordered|, i requires 0 <= i < |ordered| => CountrySource(ordered[i].ruleSet))
  }

  /** Every source there could be, in order, as written. */
  function Sources(site: Site, order: seq<Kind>, ordered: seq<Selected>): seq<Source> {
    if order == [] then []
    else Sources(site, order[..|order| - 1], ordered) + Block(site, order[|order| - 1], ordered)
  }

  /** Those that have any rule, with cleaned lists. */
  function Contributing(sources: seq<Source>): seq<Source> {
    if sources == [] then []
    else
      var before, s := Contributing(sources[..|sources| - 1]), sources[|sources| - 1];
      if Clean(s.lists) == NO_RULES then before else before + [s.(lists := Clean(s.lists))]
  }

  function Names(sources: seq<Source>): seq<string> {
    seq(|sources|, i requires 0 <= i < |sources| => sources[i].name)
  }

  function Flat(sources: seq<Source>): Lists {
    if sources == [] then NO_RULES
    else
      var b, l := Flat(sources[..|sources| - 1]), sources[|sources| - 1].lists;
      Lists(Merge(b.allow + l.allow), Merge(b.deny + l.deny), Merge(b.allowASNs + l.allowASNs),
            Merge(b.denyASNs + l.denyASNs), Merge(b.denyReputation + l.denyReputation))
  }

  function FiveLists(l: Lists): seq<seq<string>> {
    [l.allow, l.deny, l.allowASNs, l.denyASNs, l.denyReputation]
  }

  lemma {:induction false} FlatOneMore(rest: seq<Source>, s: Source, part: nat)
    requires part < 5
    ensures Values(FiveLists(Flat(rest + [s]))[part]) ==
            Values(FiveLists(Flat(rest))[part]) + Values(FiveLists(s.lists)[part])
  {
    hide Merge, Values;
    assert (rest + [s])[..|rest|] == rest;
    assert FiveLists(Flat(rest + [s]))[part] == Merge(FiveLists(Flat(rest))[part] + FiveLists(s.lists)[part]);
    MergedValues(FiveLists(Flat(rest))[part], FiveLists(s.lists)[part]);
  }

  /** Each flat list holds the values of that list of every source. */
  lemma {:induction false} FlatMeans(sources: seq<Source>, part: nat, v: string)
    requires part < 5
    ensures v in Values(FiveLists(Flat(sources))[part]) <==>
            exists i :: 0 <= i < |sources| && v in Values(FiveLists(sources[i].lists)[part])
  {
    if sources != [] {
      var n := |sources| - 1;
      FlatMeans(sources[..n], part, v);
      assert sources == sources[..n] + [sources[n]];
      FlatOneMore(sources[..n], sources[n], part);
      hide Flat, FiveLists, Values;
    }
  }

  lemma MergedValues(a: seq<string>, b: seq<string>)
    ensures Values(Merge(a + b)) == Values(a) + Values(b)
  {
    ValuesOfConcat(a, b);
    MergeKeepsValues(a + b);
  }
  datatype Resolved = Resolved(order: seq<string>, sources: seq<Source>, access: Lists, ruleSetIDs: seq<string>)

  function Resolution(sources: seq<Source>, ids: seq<string>): Resolved {
    var c := Contributing(sources);
    Resolved(Names(c), c, Flat(c), ids)
  }

  function Resolve(site: Site, st: Settings): Option<Resolved> {
    var ids := SelectedIDs(site);
    if Select(st, ids).None? then None
    else Some(Resolution(Sources(site, EffectiveOrder(st.sourceOrder), SortSelected(Select(st, ids).value)), ids))
  }

  /** The policy under construction. */
  class PolicyBuilder {
    var order: seq<string>
    var sources: seq<Source>
    var access: Lists

    constructor ()
      ensures order == [] && sources == [] && access == NO_RULES
    {
      order, sources, access := [], [], NO_RULES;
    }

    ghost predicate Built(from: seq<Source>)
      reads this
    {
      Resolved(order, sources, access, []) == Resolution(from, [])
    }

    method AppendPolicySource(s: Source, ghost from: seq<Source>)
      requires Built(from)
      modifies this
      ensures Built(from + [s])
    {
      assert (from + [s])[..|from|] == from;
      var allow := MergeStringList(s.lists.allow);
      var deny := MergeStringList(s.lists.deny);
      var allowASNs := MergeStringList(s.lists.allowASNs);
      var denyASNs := MergeStringList(s.lists.denyASNs);
      var denyReputation := MergeStringList(s.lists.denyReputation);
      if |allow| == 0 && |deny| == 0 && |allowASNs| == 0 && |denyASNs| == 0 && |denyReputation| == 0 {
        return;
      }
      var rules := Lists(allow, deny, allowASNs, denyASNs, denyReputation);
      AppendClean(s.(lists := rules));
    }

    method AppendClean(s: Source)
      requires order == Names(sources) && access == Flat(sources)
      modifies this
      ensures sources == old(sources) + [s] && order == Names(sources) && access == Flat(sources)
    {
      assert (sources + [s])[..|sources|] == sources;
      var l := s.lists;
      order := order + [s.name];
      sources := sources + [s];
      var allow := MergeStringList(access.allow + l.allow);
      var deny := MergeStringList(access.deny + l.deny);
      var allowASNs := MergeStringList(access.allowASNs + l.allowASNs);
      var denyASNs := MergeStringList(access.denyASNs + l.denyASNs);
      var denyReputation := MergeStringList(access.denyReputation + l.denyReputation);
      access := Lists(allow, deny, allowASNs, denyASNs, denyReputation);
    }

    method AppendAll(block: seq<Source>, ghost from: seq<Source>)
      requires Built(from)
      modifies this
      ensures Built(from + block)
    {
      assert from + block[..0] == from;
      for i := 0 to |block|
        invariant Built(from + block[..i])
      {
        assert from + block[..i + 1] == from + block[..i] + [block[i]];
        AppendPolicySource(block[i], from + block[..i]);
      }
      assert block[..|block|] == block;
    }
  }

  method SelectRuleSets(st: Settings, ids: seq<string>) returns (selected: Option<seq<Selected>>)
    ensures selected == Select(st, ids)
  {
    var ruleSetMap := BuildEffectiveRuleSetMap(st);
    var out: seq<Selected> := [];
    for i := 0 to |ids|
      invariant Select(st, ids[..i]) == Some(out)
    {
      assert ids[..i + 1][..i] == ids[..i];
      assert EffectiveOf(st, ids[i]) == if ids[i] in ruleSetMap then Some(ruleSetMap[ids[i]]) else None;
      if ids[i] !in ruleSetMap {
        SelectStaysNone(st, ids, i + 1, |ids|);
        assert ids[..|ids|] == ids;
        return None;
      }
      out := out + [Selected(i, ruleSetMap[ids[i]])];
    }
    assert ids[..|ids|] == ids;
    return Some(out);
  }

  lemma {:induction false} SelectStaysNone(st: Settings, ids: seq<string>, m: nat, n: nat)
    requires m <= n <= |ids| && Select(st, ids[..m]).None?
    ensures Select(st, ids[..n]).None?
    decreases n
  {
    hide EffectiveOf;
    if m < n {
      SelectStaysNone(st, ids, m, n - 1);
      assert ids[..n][..n - 1] == ids[..n - 1];
    }
  }

  method BuildPolicy(site: Site, order: seq<Kind>, ordered: seq<Selected>) returns (builder: PolicyBuilder)
    ensures builder.Built(Sources(site, order, ordered))
  {
    builder := new PolicyBuilder();
    for i := 0 to |order|
      invariant builder.Built(Sources(site, order[..i], ordered))
    {
      assert order[..i + 1][..i] == order[..i];
      builder.AppendAll(Block(site, order[i], ordered), Sources(site, order[..i], ordered));
    }
    assert order[..|order|] == order;
  }

  method ResolveSiteIPAccess(site: Site, st: Settings) returns (resolved: Option<Resolved>)
    ensures resolved == Resolve(site, st)
  {
    var ids := MergeStringList(site.ruleSetIDs + [site.ruleSetID]);
    var selected := SelectRuleSets(st, ids);
    if selected.None? {
      return None;
    }
    var builder := BuildPolicy(site, EffectiveOrder(st.sourceOrder), SortSelected(selected.value));
    return Some(Resolved(builder.order, builder.sources, builder.access, ids));
  }
}
