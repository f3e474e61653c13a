/** Rule sets whose IDs differ only in case.

    What the compiled policy makes of them, and when that shows. */
module IPCollision {
  import opened Common
  import opened Text
  import opened IPRules
  import opened IPAccess
  import opened IPDecision
  import opened IPMeaning
  import opened IPAgreement

  /** x is a rule, and matches the address ip. */
  predicate IsRuleFor(net: Net, x: string, ip: string) {
    x != "" && Trim(x) == x && net.valid(x) && net.isIP(ip) && net.contains(x, ip)
  }

  function AllowRule(x: string): Lists {
    NO_RULES.(allow := [x])
  }

  function DenyRule(x: string): Lists {
    NO_RULES.(deny := [x])
  }

  function ClashRules(x: string, i: nat, j: nat, k: nat): Lists {
    if k == i then AllowRule(x) else if k == j then DenyRule(x) else NO_RULES
  }

  /** Rule sets for all selected IDs, of equal priority, read before anything else: the i-th allows an
      address, the j-th denies it, the others are empty. */
  function Clash(x: string, ids: seq<string>, i: nat, j: nat): Settings {
    Settings(seq(|ids|, k requires 0 <= k < |ids| => RuleSet(ids[k], 0, "", ClashRules(x, i, j, k))), [], ["custom"])
  }

  ghost predicate CleanIDs(ids: seq<string>) {
    && (forall k :: 0 <= k < |ids| ==> ids[k] != "" && Trim(ids[k]) == ids[k])
    && (forall k, l :: 0 <= k < l < |ids| ==> ids[k] != ids[l])
  }

  lemma {:induction false} MergeCleans(items: seq<string>)
    ensures CleanIDs(Merge(items))
  {
    MergeHolds(items);
    forall k | 0 <= k < |Merge(items)|
      ensures Merge(items)[k] != "" && Trim(Merge(items)[k]) == Merge(items)[k]
    {
      assert Merge(items)[k] in Merge(items);
    }
    if items != [] {
      MergeCleans(items[..|items| - 1]);
    }
  }

  lemma {:induction false} FindsRuleSet(x: string, ids: seq<string>, i: nat, j: nat, k: nat, n: nat)
    requires CleanIDs(ids) && k < n <= |ids|
    ensures RuleSetOf(Clash(x, ids, i, j).ruleSets[..n], ids[k]) == Some(RuleSet(ids[k], 0, "", ClashRules(x, i, j, k)))
    decreases n
  {
    var sets := Clash(x, ids, i, j).ruleSets;
    assert sets[..n][..n - 1] == sets[..n - 1];
    if k < n - 1 {
      FindsRuleSet(x, ids, i, j, k, n - 1);
    }
  }

  function Clashing(x: string, ids: seq<string>, i: nat, j: nat): seq<Selected> {
    seq(|ids|, k requires 0 <= k < |ids| => Selected(k, Effective(ids[k], 0, true, ClashRules(x, i, j, k), [], [])))
  }

  lemma BlankIsAllowFirst()
    ensures AllowFirst("")
  {
    TrimFacts("");
    assert |Lower("")| == 0;
  }

  lemma {:induction false} SelectsClashing(x: string, ids: seq<string>, i: nat, j: nat)
    requires CleanIDs(ids)
    ensures Arranged(Clash(x, ids, i, j), ids, Clashing(x, ids, i, j))
    ensures SortSelected(Clashing(x, ids, i, j)) == Clashing(x, ids, i, j)
    ensures Select(Clash(x, ids, i, j), ids) == Some(Clashing(x, ids, i, j))
  {
    var st := Clash(x, ids, i, j);
    BlankIsAllowFirst();
    assert st.ruleSets[..|ids|] == st.ruleSets;
    forall k | 0 <= k < |ids|
      ensures RuleSetOf(st.ruleSets, ids[k]) == Some(RuleSet(ids[k], 0, "", ClashRules(x, i, j, k)))
    {
      FindsRuleSet(x, ids, i, j, k, |ids|);
    }
    SelectFailsExactly(st, ids);
    SortFactsSelected(st, ids);
    forall k | 0 <= k < |ids|
      ensures Select(st, ids).value[k] == Clashing(x, ids, i, j)[k]
    {
      SelectAt(st, ids, k);
    }
    assert Select(st, ids).value == Clashing(x, ids, i, j);
    OrderUnique(SortSelected(Clashing(x, ids, i, j)), Clashing(x, ids, i, j));
  }

  // ---------- what contributes ----------

  lemma {:induction false} ContributingConcat(a: seq<Source>, b: seq<Source>)
    ensures Contributing(a + b) == Contributing(a) + Contributing(b)
    decreases |b|
  {
    if b == [] {
      assert a + b == a;
    } else {
      var n := |b| - 1;
      assert (a + b)[..|a + b| - 1] == a + b[..n];
      ContributingConcat(a, b[..n]);
    }
  }

  lemma CleanX(x: string)
    requires x != "" && Trim(x) == x
    ensures Clean(AllowRule(x)) == AllowRule(x) && Clean(DenyRule(x)) == DenyRule(x) && Clean(NO_RULES) == NO_RULES
  {
    var one, none: seq<string> := [x], [];
    assert one[..|one| - 1] == none && none + [x] == one;
    assert Merge(none) == none;
    assert Merge(one) == one;
  }

  lemma CleanNothing()
    ensures Clean(NO_RULES) == NO_RULES
  {
  }

  lemma CleanSourceContributes(before: seq<Source>, s: Source)
    requires Clean(s.lists) == s.lists
    ensures Contributing(before + [s]) == Contributing(before) + if s.lists == NO_RULES then [] else [s]
  {
    assert (before + [s])[..|before|] == before;
    assert s.(lists := s.lists) == s;
  }

  ghost predicate OnlyTwo(raw: seq<Source>, i: nat, j: nat) {
    forall k :: 0 <= k < |raw| ==> Clean(raw[k].lists) == raw[k].lists && (raw[k].lists == NO_RULES <==> k != i && k != j)
  }

  function TwoOf(raw: seq<Source>, i: nat, j: nat, n: nat): seq<Source>
    requires i < j && n <= |raw|
  {
    if n <= i then [] else if n <= j then [raw[i]] else [raw[i], raw[j]]
  }

  lemma TwoOfStep(raw: seq<Source>, i: nat, j: nat, n: nat)
    requires i < j && n < |raw| && OnlyTwo(raw, i, j)
    ensures TwoOf(raw, i, j, n + 1) == TwoOf(raw, i, j, n) + if raw[n].lists == NO_RULES then [] else [raw[n]]
  {
  }

  lemma StepContributes(raw: seq<Source>, i: nat, j: nat, n: nat)
    requires i < j && n < |raw| && OnlyTwo(raw, i, j)
    ensures Contributing(raw[..n + 1]) == Contributing(raw[..n]) + if raw[n].lists == NO_RULES then [] else [raw[n]]
  {
    CleanSourceContributes(raw[..n], raw[n]);
    assert raw[..n + 1] == raw[..n] + [raw[n]];
  }

  lemma NothingYet(raw: seq<Source>, i: nat, j: nat)
    requires i < j
    ensures Contributing(raw[..0]) == TwoOf(raw, i, j, 0)
  {
  }

  /** All but the i-th and the j-th are empty. */
  lemma {:induction false} TwoContribute(raw: seq<Source>, i: nat, j: nat, n: nat)
    requires i < j && n <= |raw| && OnlyTwo(raw, i, j)
    ensures Contributing(raw[..n]) == TwoOf(raw, i, j, n)
    decreases n
  {
    hide Contributing, Clean, TwoOf;
    if n == 0 {
      NothingYet(raw, i, j);
    } else {
      TwoContribute(raw, i, j, n - 1);
      StepContributes(raw, i, j, n - 1);
      TwoOfStep(raw, i, j, n - 1);
    }
  }

  lemma {:induction false} NoneContribute(raw: seq<Source>)
    requires forall k :: 0 <= k < |raw| ==> raw[k].lists == NO_RULES
    ensures Contributing(raw) == []
  {
    CleanNothing();
    if raw != [] {
      NoneContribute(raw[..|raw| - 1]);
    }
  }

  lemma OneKind(source: string, kind: Kind)
    requires KindOf(source) == Some(kind)
    ensures Kinds([source]) == Some([kind])
  {
    var items, none: seq<Kind> := [source], [];
    assert items[..|items| - 1] == [] && none + [kind] == [kind];
  }

  lemma CustomFirst()
    ensures EffectiveOrder(["custom"]) == [CustomKind, SiteKind, CountryKind]
  {
    TrimFacts("custom");
    assert Lower("custom") == "custom";
    OneKind("custom", CustomKind);
    assert Fill([CustomKind], 0) == [CustomKind];
    assert Fill([CustomKind], 1) == [CustomKind, SiteKind];
    assert CustomKind in [CustomKind];
    assert Fill([CustomKind], 2) == [CustomKind, SiteKind];
  }

  function Allowing(x: string, ids: seq<string>, i: nat): Source
    requires i < |ids|
  {
    Source("custom:" + ids[i], true, AllowRule(x))
  }

  function Denying(x: string, ids: seq<string>, j: nat): Source
    requires j < |ids|
  {
    Source("custom:" + ids[j], true, DenyRule(x))
  }

  lemma {:induction false} ClashContributes(x: string, site: Site, ids: seq<string>, i: nat, j: nat)
    requires i < j < |ids| && x != "" && Trim(x) == x
    ensures Contributing(Sources(site, EffectiveOrder(["custom"]), Clashing(x, ids, i, j))) ==
            [Allowing(x, ids, i), Denying(x, ids, j)] + Contributing([Source("site", false, site.access)])
  {
    var s := Clashing(x, ids, i, j);
    var custom, own, country := Block(site, CustomKind, s), Block(site, SiteKind, s), Block(site, CountryKind, s);
    SourcesInOrder(site, s);
    ContributingConcat(custom + own, country);
    ContributingConcat(custom, own);
    NoneContribute(country);
    CustomContributes(x, site, ids, i, j);
  }

  lemma ClashOnlyTwo(x: string, site: Site, ids: seq<string>, i: nat, j: nat)
    requires i < j < |ids| && x != "" && Trim(x) == x
    ensures OnlyTwo(Block(site, CustomKind, Clashing(x, ids, i, j)), i, j)
  {
    hide Clean;
    CleanX(x);
  }

  lemma ClashTwo(x: string, site: Site, ids: seq<string>, i: nat, j: nat)
    requires i < j < |ids|
    ensures |Block(site, CustomKind, Clashing(x, ids, i, j))| == |ids|
    ensures TwoOf(Block(site, CustomKind, Clashing(x, ids, i, j)), i, j, |ids|) == [Allowing(x, ids, i), Denying(x, ids, j)]
  {
  }

  lemma CustomContributes(x: string, site: Site, ids: seq<string>, i: nat, j: nat)
    requires i < j < |ids| && x != "" && Trim(x) == x
    ensures Contributing(Block(site, CustomKind, Clashing(x, ids, i, j))) == [Allowing(x, ids, i), Denying(x, ids, j)]
  {
    hide Contributing, OnlyTwo, TwoOf, Block, Clashing, Allowing, Denying;
    var custom := Block(site, CustomKind, Clashing(x, ids, i, j));
    ClashOnlyTwo(x, site, ids, i, j);
    ClashTwo(x, site, ids, i, j);
    TwoContribute(custom, i, j, |custom|);
    assert custom[..|custom|] == custom;
  }

  lemma SourcesInOrder(site: Site, s: seq<Selected>)
    ensures Sources(site, EffectiveOrder(["custom"]), s) ==
            Block(site, CustomKind, s) + Block(site, SiteKind, s) + Block(site, CountryKind, s)
  {
    hide Sources, Block, EffectiveOrder;
    CustomFirst();
    NoSources(site, s);
    SourcesOfOneMore(site, [], CustomKind, s);
    SourcesOfOneMore(site, [CustomKind], SiteKind, s);
    SourcesOfOneMore(site, [CustomKind, SiteKind], CountryKind, s);
    assert [] + [CustomKind] == [CustomKind];
    assert [CustomKind] + [SiteKind] == [CustomKind, SiteKind];
    assert [CustomKind, SiteKind] + [CountryKind] == [CustomKind, SiteKind, CountryKind];
  }

  lemma NoSources(site: Site, s: seq<Selected>)
    ensures Sources(site, [], s) == []
  {
  }

  lemma SourcesOfOneMore(site: Site, order: seq<Kind>, kind: Kind, s: seq<Selected>)
    ensures Sources(site, order + [kind], s) == Sources(site, order, s) + Block(site, kind, s)
  {
    assert (order + [kind])[..|order|] == order;
  }

  // ---------- what is compiled ----------

  ghost predicate AllCompiled(net: Net, m: map<string, Source>) {
    forall key :: key in m ==> CompiledLists(net, key, m[key].allowFirst, m[key].lists).Some?
  }

  lemma {:induction false} FirstCompiled(net: Net, m: map<string, Source>, names: seq<string>)
    requires AllCompiled(net, m) && names != [] && Key(names[0]) != "" && Key(names[0]) in m
    ensures var r, key := CompiledNamed(net, m, names), Key(names[0]);
            r.Some? && r.value != [] && Some(r.value[0]) == CompiledLists(net, key, m[key].allowFirst, m[key].lists)
  {
    hide CompiledLists, Key;
    if |names| > 1 {
      FirstCompiled(net, m, names[..|names| - 1]);
    } else {
      assert names[..0] == [];
    }
  }

  /** One source that cannot be compiled fails them all. */
  lemma {:induction false} NamedFails(net: Net, m: map<string, Source>, names: seq<string>, k: nat)
    requires k < |names| && Key(names[k]) != "" && Key(names[k]) in m
    requires CompiledLists(net, Key(names[k]), m[Key(names[k])].allowFirst, m[Key(names[k])].lists).None?
    ensures CompiledNamed(net, m, names).None?
    decreases |names|
  {
    hide CompiledLists, Key;
    var n := |names| - 1;
    if k < n {
      NamedFails(net, m, names[..n], k);
    }
  }

  lemma OneRuleParsed(net: Net, rule: string)
    requires rule != "" && Trim(rule) == rule && net.valid(rule)
    ensures ParsedIPs(net, [rule]) == Some([rule])
  {
    var items, none: seq<string> := [rule], [];
    assert items[..|items| - 1] == [] && none + [rule] == [rule];
  }

  lemma ClashVerdicts(net: Net, x: string, ip: string, source: string)
    requires IsRuleFor(net, x, ip)
    ensures var a, d := CompiledLists(net, source, true, AllowRule(x)), CompiledLists(net, source, true, DenyRule(x));
            && a.Some? && SourceVerdict(net, a.value, ip, 0) == Admit
            && d.Some? && SourceVerdict(net, d.value, ip, 0) == Refuse
  {
    OneRuleParsed(net, x);
    assert x in [x];
    var a, d := CompiledLists(net, source, true, AllowRule(x)), CompiledLists(net, source, true, DenyRule(x));
    assert a == Some(CompiledSource(source, true, [x], [], {}, {}, []));
    assert d == Some(CompiledSource(source, true, [], [x], {}, {}, []));
    assert MatchAnyRule(net, [x], ip);
  }

  lemma {:induction false} LaterWins(x: string, ids: seq<string>, i: nat, j: nat, rest: seq<Source>)
    requires CleanIDs(ids) && i < j < |ids| && Lower(ids[i]) == Lower(ids[j])
    requires rest == [] || (|rest| == 1 && rest[0].name == "site")
    ensures var m, key := SourceMap([Allowing(x, ids, i), Denying(x, ids, j)] + rest), Key("custom:" + ids[i]);
            key != "" && key in m && m[key] == Denying(x, ids, j)
  {
    KeyWithPrefix("custom:", ids[i]);
    KeyWithPrefix("custom:", ids[j]);
    SiteKey();
    var a, b := Allowing(x, ids, i), Denying(x, ids, j);
    var key := Key(a.name);
    assert key[0] == 'c';
    MapOfOneMore([a], b);
    assert [a] + [b] == [a, b];
    if rest != [] {
      MapOfOneMore([a, b], rest[0]);
      assert rest == [rest[0]];
    } else {
      assert [a, b] + rest == [a, b];
    }
  }

  lemma {:induction false} LaterCompiles(net: Net, x: string, ip: string, ids: seq<string>, i: nat, j: nat, rest: seq<Source>)
    requires IsRuleFor(net, x, ip) && i < j < |ids|
    requires rest == [] || (|rest| == 1 && CompiledLists(net, Key(rest[0].name), rest[0].allowFirst, rest[0].lists).Some?)
    ensures AllCompiled(net, SourceMap([Allowing(x, ids, i), Denying(x, ids, j)] + rest))
  {
    var a, b := Allowing(x, ids, i), Denying(x, ids, j);
    ClashVerdicts(net, x, ip, Key(a.name));
    ClashVerdicts(net, x, ip, Key(b.name));
    assert a.allowFirst && a.lists == AllowRule(x) && b.allowFirst && b.lists == DenyRule(x);
    hide CompiledLists, Key, SourceMap, AllCompiled, Allowing, Denying, AllowRule, DenyRule;
    NothingMapped(net);
    CompilesOneMore(net, [], a);
    assert [] + [a] == [a];
    CompilesOneMore(net, [a], b);
    assert [a] + [b] == [a, b];
    if rest != [] {
      CompilesOneMore(net, [a, b], rest[0]);
      assert rest == [rest[0]];
    } else {
      assert [a, b] + rest == [a, b];
    }
  }

  lemma CompilesOneMore(net: Net, sources: seq<Source>, s: Source)
    requires AllCompiled(net, SourceMap(sources)) && CompiledLists(net, Key(s.name), s.allowFirst, s.lists).Some?
    ensures AllCompiled(net, SourceMap(sources + [s]))
  {
    hide CompiledLists, Key, SourceMap;
    MapOfOneMore(sources, s);
  }

  lemma NothingMapped(net: Net)
    ensures AllCompiled(net, SourceMap([]))
  {
  }

  // ---------- a site whose own rules are valid ----------

  function OwnSource(site: Site): Source {
    Source("site", false, site.access)
  }

  ghost predicate OwnRulesValid(net: Net, site: Site) {
    ValidRules(net, Meaning(false, site.access))
  }

  lemma OwnContributes(site: Site)
    ensures var own := Contributing([OwnSource(site)]);
            own == if Clean(site.access) == NO_RULES then [] else [OwnSource(site).(lists := Clean(site.access))]
  {
    var none: seq<Source> := [];
    hide Clean;
    assert [OwnSource(site)][..0] == none && none + [OwnSource(site).(lists := Clean(site.access))] == [OwnSource(site).(lists := Clean(site.access))];
  }

  lemma OwnCompiles(net: Net, site: Site, source: string)
    ensures CompiledLists(net, source, false, Clean(site.access)).Some? <==> OwnRulesValid(net, site)
    ensures !OwnRulesValid(net, site) ==> Clean(site.access) != NO_RULES
  {
    hide CompiledLists;
    CleanKeepsMeaning(false, site.access);
    CompiledListsMean(net, source, false, Clean(site.access), "", 0);
  }

  /** The first source to be compiled is the one that denies, the first to be read the one that allows. */
  lemma {:induction false} ClashShows(net: Net, x: string, ip: string, site: Site, i: nat, j: nat)
    requires IsRuleFor(net, x, ip) && OwnRulesValid(net, site)
    requires i < j < |SelectedIDs(site)| && Lower(SelectedIDs(site)[i]) == Lower(SelectedIDs(site)[j])
    ensures var ids := SelectedIDs(site); var st, ordered := Clash(x, ids, i, j), Clashing(x, ids, i, j);
            && Arranged(st, ids, ordered) && Resolve(site, st).Some? && Known(st, IDsOf(ordered))
            && !KeepsMeaning(net, site, st, IDsOf(ordered), ip, 0)
  {
    hide Clashing, Clash, Clean, Sources, Contributing, CompiledLists, Compiled, SelectedIDs, Reading, Resolution, Key;
    hide ValidRules, Allowing, Denying, DeniedByPolicy, DirectlyDenied, Arranged, IsRuleFor, EffectiveOrder;
    var ids := SelectedIDs(site);
    var st, ordered := Clash(x, ids, i, j), Clashing(x, ids, i, j);
    SelectedAreClean(site);
    SelectsClashing(x, ids, i, j);
    RankedResolve(site, st, ordered);
    ClashSources(net, x, ip, site, i, j);
    var raw, own := Sources(site, EffectiveOrder(st.sourceOrder), ordered), Contributing([OwnSource(site)]);
    ClashDenied(net, x, ip, ids, i, j, raw, own);
    ClashRead(net, x, ip, site, i, j);
  }

  lemma SelectedAreClean(site: Site)
    ensures CleanIDs(SelectedIDs(site))
  {
    MergeCleans(site.ruleSetIDs + [site.ruleSetID]);
  }

  ghost predicate OwnPart(net: Net, own: seq<Source>) {
    own == [] || (|own| == 1 && own[0].name == "site" && CompiledLists(net, Key("site"), own[0].allowFirst, own[0].lists).Some?)
  }

  lemma {:induction false} ClashSources(net: Net, x: string, ip: string, site: Site, i: nat, j: nat)
    requires IsRuleFor(net, x, ip) && OwnRulesValid(net, site) && i < j < |SelectedIDs(site)|
    ensures var ids, own := SelectedIDs(site), Contributing([OwnSource(site)]);
            var raw := Sources(site, EffectiveOrder(Clash(x, ids, i, j).sourceOrder), Clashing(x, ids, i, j));
            OwnPart(net, own) && Contributing(raw) == [Allowing(x, ids, i), Denying(x, ids, j)] + own
  {
    hide Clashing, Clean, Sources, Contributing, CompiledLists, SelectedIDs, ValidRules, EffectiveOrder;
    ClashContributes(x, site, SelectedIDs(site), i, j);
    OwnContributes(site);
    OwnCompiles(net, site, Key("site"));
  }

  lemma {:induction false} ClashDenied(net: Net, x: string, ip: string, ids: seq<string>, i: nat, j: nat, raw: seq<Source>, own: seq<Source>)
    requires IsRuleFor(net, x, ip) && CleanIDs(ids) && i < j < |ids| && Lower(ids[i]) == Lower(ids[j])
    requires OwnPart(net, own)
    requires Contributing(raw) == [Allowing(x, ids, i), Denying(x, ids, j)] + own
    ensures Compiled(net, Resolution(raw, ids)).Some?
    ensures DeniedByPolicy(net, Compiled(net, Resolution(raw, ids)).value, ip, 0)
  {
    hide Contributing, SourceMap, CompiledNamed, CompiledLists, SourceVerdict, Key;
    var c, key := Contributing(raw), Key("custom:" + ids[i]);
    LaterWins(x, ids, i, j, own);
    LaterCompiles(net, x, ip, ids, i, j, own);
    assert c[0] == Allowing(x, ids, i) && Names(c)[0] == Allowing(x, ids, i).name;
    FirstCompiled(net, SourceMap(c), Names(c));
    ClashVerdicts(net, x, ip, key);
  }

  lemma {:induction false} FirstOfEach(net: Net, sources: seq<Source>)
    requires sources != []
    requires forall s :: s in sources ==> CompiledLists(net, Key(s.name), s.allowFirst, s.lists).Some?
    ensures var r, s := CompiledEach(net, sources), sources[0];
            r.Some? && r.value != [] && Some(r.value[0]) == CompiledLists(net, Key(s.name), s.allowFirst, s.lists)
  {
    hide CompiledLists, Key;
    var rest, last := sources[..|sources| - 1], sources[|sources| - 1];
    assert sources == rest + [last] && last in sources && forall s :: s in rest ==> s in sources;
    if |sources| > 1 {
      FirstOfEach(net, rest);
    } else {
      assert rest == [];
    }
  }

  lemma {:induction false} ClashRead(net: Net, x: string, ip: string, site: Site, i: nat, j: nat)
    requires IsRuleFor(net, x, ip) && OwnRulesValid(net, site)
    requires i < j < |SelectedIDs(site)|
    ensures var ids := SelectedIDs(site); var st, ordered := Clash(x, ids, i, j), Clashing(x, ids, i, j);
            && Known(st, IDsOf(ordered))
            && !DirectlyDenied(net, Reading(site, st, EffectiveOrder(st.sourceOrder), IDsOf(ordered)), ip, 0)
  {
    hide Clashing, Clash, Contributing, CompiledLists, Key, Sources, Reading, SourceVerdict, CompiledEach, ValidRules;
    hide SelectedIDs, EffectiveOrder, Arranged, Resolution, Meanings, DirectlyDenied, First, AllValid, Allowing, Denying, Known;
    var ids := SelectedIDs(site);
    var st, ordered := Clash(x, ids, i, j), Clashing(x, ids, i, j);
    var order := EffectiveOrder(st.sourceOrder);
    SelectedAreClean(site);
    SelectsClashing(x, ids, i, j);
    RankedResolve(site, st, ordered);
    ClashSources(net, x, ip, site, i, j);
    var raw := Sources(site, order, ordered);
    FirstAdmits(net, x, ip, raw, ids, Contributing([OwnSource(site)]), i, j);
    SourcesMean(site, st, order, ordered, ids);
    DirectlyDeniedIs(net, Meanings(raw), ip, 0);
  }

  lemma {:induction false} FirstAdmits(net: Net, x: string, ip: string, raw: seq<Source>, ids: seq<string>, own: seq<Source>, i: nat, j: nat)
    requires IsRuleFor(net, x, ip) && OwnPart(net, own) && i < j < |ids|
    requires Contributing(raw) == [Allowing(x, ids, i), Denying(x, ids, j)] + own
    ensures AllValid(net, Meanings(raw)) && First(net, Meanings(raw), ip, 0) == Admit
  {
    hide Contributing, CompiledLists, Key, SourceVerdict, CompiledEach, Meanings, AllValid;
    var c, a, b := Contributing(raw), Allowing(x, ids, i), Denying(x, ids, j);
    ClashVerdicts(net, x, ip, Key(a.name));
    ClashVerdicts(net, x, ip, Key(b.name));
    assert forall s :: s in c ==> s == a || s == b || s in own;
    FirstOfEach(net, c);
    EachAgrees(net, raw, ip, 0);
  }

  // ---------- a site whose own rules are not ----------

  lemma {:induction false} OnlyOwnIsSite(site: Site, order: seq<Kind>, ordered: seq<Selected>)
    requires forall k :: 0 <= k < |ordered| ==> ordered[k].ruleSet.id != "" && Trim(ordered[k].ruleSet.id) == ordered[k].ruleSet.id
    ensures forall s :: s in Sources(site, order, ordered) && Key(s.name) == "site" ==> s == OwnSource(site)
    ensures SiteKind in order ==> OwnSource(site) in Sources(site, order, ordered)
  {
    if order != [] {
      var rest, kind := order[..|order| - 1], order[|order| - 1];
      OnlyOwnIsSite(site, rest, ordered);
      assert order == rest + [kind];
      BlockIsSite(site, kind, ordered);
      assert OwnSource(site) in [OwnSource(site)];
    }
  }

  lemma BlockIsSite(site: Site, kind: Kind, ordered: seq<Selected>)
    requires forall k :: 0 <= k < |ordered| ==> ordered[k].ruleSet.id != "" && Trim(ordered[k].ruleSet.id) == ordered[k].ruleSet.id
    ensures forall s :: s in Block(site, kind, ordered) && Key(s.name) == "site" ==> s == OwnSource(site)
  {
    hide Key;
    if !kind.SiteKind? {
      var prefix := if kind.CustomKind? then "custom:" else "country:";
      forall k | 0 <= k < |ordered|
        ensures Key(Block(site, kind, ordered)[k].name) != "site"
      {
        KeyWithPrefix(prefix, ordered[k].ruleSet.id);
        assert Key(Block(site, kind, ordered)[k].name)[0] == 'c';
      }
    }
  }

  lemma {:induction false} OwnKept(raw: seq<Source>, own: Source)
    requires forall s :: s in raw && Key(s.name) == "site" ==> s == own
    requires own in raw && own.name == "site" && Clean(own.lists) != NO_RULES
    ensures var c, kept := Contributing(raw), own.(lists := Clean(own.lists));
            kept in c && forall s :: s in c && Key(s.name) == "site" ==> s == kept
  {
    hide Clean, Key;
    var kept := own.(lists := Clean(own.lists));
    ContributingFrom(raw);
    assert kept in Contributing(raw);
  }

  /** What contributes is a cleaned source with rules, and each of those contributes. */
  lemma {:induction false} ContributingFrom(raw: seq<Source>)
    ensures forall s :: s in raw && Clean(s.lists) != NO_RULES ==> s.(lists := Clean(s.lists)) in Contributing(raw)
    ensures forall t :: t in Contributing(raw) ==> exists s :: s in raw && t == s.(lists := Clean(s.lists))
  {
    hide Clean;
    if raw != [] {
      var rest, last := raw[..|raw| - 1], raw[|raw| - 1];
      ContributingFrom(rest);
      assert raw == rest + [last];
    }
  }

  lemma {:induction false} MappedIs(sources: seq<Source>, own: Source)
    requires own in sources && Key(own.name) == "site" && forall s :: s in sources && Key(s.name) == "site" ==> s == own
    ensures var m := SourceMap(sources); "site" in m && m["site"] == own
  {
    hide Key;
    var rest, last := sources[..|sources| - 1], sources[|sources| - 1];
    assert sources == rest + [last] && last in sources && forall s :: s in rest ==> s in sources;
    if Key(last.name) != "site" {
      MappedIs(rest, own);
    }
  }

  /** If the site's own rules are not valid, nothing compiles and the reading is not valid either. */
  lemma {:induction false} InvalidOwnRules(net: Net, site: Site, st: Settings, ranks: seq<nat>, ip: string, asn: nat)
    requires Ranked(st, SelectedIDs(site), ranks) && !OwnRulesValid(net, site)
    ensures KeptUnder(net, site, st, ranks, ip, asn)
  {
    hide Sources, Compiled, Reading, Resolution, AllValid, ValidRules, Arranged, Key, AtRanks;
    var ids, order := SelectedIDs(site), EffectiveOrder(st.sourceOrder);
    var ordered := RanksArrange(st, ids, ranks);
    RankedResolve(site, st, ordered);
    OrderIsComplete(st.sourceOrder);
    RankedClean(site, st, ordered);
    OnlyOwnIsSite(site, order, ordered);
    InvalidReading(net, site, st, ordered);
    InvalidCompiling(net, site, Sources(site, order, ordered), ids);
  }

  lemma {:induction false} RankedClean(site: Site, st: Settings, ordered: seq<Selected>)
    requires Arranged(st, SelectedIDs(site), ordered)
    ensures forall k :: 0 <= k < |ordered| ==> ordered[k].ruleSet.id != "" && Trim(ordered[k].ruleSet.id) == ordered[k].ruleSet.id
  {
    var ids := SelectedIDs(site);
    RankedItems(st, ids, ordered);
    MergeCleans(site.ruleSetIDs + [site.ruleSetID]);
    forall k | 0 <= k < |ordered|
      ensures ordered[k].ruleSet.id != "" && Trim(ordered[k].ruleSet.id) == ordered[k].ruleSet.id
    {
      assert Picked(st, ids, ordered[k]);
    }
  }

  lemma {:induction false} InvalidReading(net: Net, site: Site, st: Settings, ordered: seq<Selected>)
    requires Arranged(st, SelectedIDs(site), ordered) && !OwnRulesValid(net, site)
    ensures Known(st, IDsOf(ordered))
    ensures !AllValid(net, Reading(site, st, EffectiveOrder(st.sourceOrder), IDsOf(ordered)))
  {
    hide Sources, Reading, ValidRules, Arranged, Resolution, Key;
    var ids, order := SelectedIDs(site), EffectiveOrder(st.sourceOrder);
    RankedResolve(site, st, ordered);
    OrderIsComplete(st.sourceOrder);
    RankedClean(site, st, ordered);
    OnlyOwnIsSite(site, order, ordered);
    SourcesMean(site, st, order, ordered, ids);
    var raw := Sources(site, order, ordered);
    var k :| 0 <= k < |raw| && raw[k] == OwnSource(site);
    assert Meanings(raw)[k] == Meaning(false, site.access);
  }

  lemma {:induction false} InvalidCompiling(net: Net, site: Site, raw: seq<Source>, ids: seq<string>)
    requires !OwnRulesValid(net, site) && OwnSource(site) in raw
    requires forall s :: s in raw && Key(s.name) == "site" ==> s == OwnSource(site)
    ensures Compiled(net, Resolution(raw, ids)).None?
  {
    var own := OwnSource(site);
    SiteKey();
    OwnCompiles(net, site, "site");
    OwnKept(raw, own);
    hide Contributing, Clean, Key, SourceMap, CompiledLists, CompiledNamed, ValidRules;
    var c, kept := Contributing(raw), own.(lists := Clean(own.lists));
    MappedIs(c, kept);
    var k :| 0 <= k < |c| && c[k] == kept;
    assert Names(c)[k] == "site";
    NamedFails(net, SourceMap(c), Names(c), k);
  }

  // ---------- the exact condition ----------

  ghost predicate KeptUnder(net: Net, site: Site, st: Settings, ranks: seq<nat>, ip: string, asn: nat) {
    Ranked(st, SelectedIDs(site), ranks) ==>
      var ranked := AtRanks(SelectedIDs(site), ranks);
      Resolve(site, st).Some? && Known(st, ranked) && KeepsMeaning(net, site, st, ranked, ip, asn)
  }

  function InPlace(n: nat): seq<nat> {
    seq(n, i => i)
  }

  /** The clashing rule sets are ranked as they are selected. */
  lemma ClashRanked(x: string, ids: seq<string>, i: nat, j: nat)
    requires CleanIDs(ids)
    ensures Ranked(Clash(x, ids, i, j), ids, InPlace(|ids|))
    ensures AtRanks(ids, InPlace(|ids|)) == ids && IDsOf(Clashing(x, ids, i, j)) == ids
  {
    var st, ranks := Clash(x, ids, i, j), InPlace(|ids|);
    assert st.ruleSets[..|ids|] == st.ruleSets;
    forall k | 0 <= k < |ids|
      ensures RuleSetOf(st.ruleSets, ids[k]) == Some(RuleSet(ids[k], 0, "", ClashRules(x, i, j, k)))
    {
      FindsRuleSet(x, ids, i, j, k, |ids|);
    }
    hide RuleSetOf, Clash;
    forall k: nat
      ensures k in ranks <==> k < |ids|
    {
      if k < |ids| {
        assert ranks[k] == k;
      }
    }
  }

  /** For any two selected IDs that differ only in case there are settings that are decided wrongly. */
  lemma {:induction false} ClashBreaks(net: Net, x: string, ip: string, site: Site, i: nat, j: nat)
    requires IsRuleFor(net, x, ip) && OwnRulesValid(net, site)
    requires i < j < |SelectedIDs(site)| && Lower(SelectedIDs(site)[i]) == Lower(SelectedIDs(site)[j])
    ensures var ids := SelectedIDs(site); !KeptUnder(net, site, Clash(x, ids, i, j), InPlace(|ids|), ip, 0)
  {
    hide Clash, Clashing, Ranked, Arranged, KeepsMeaning, Resolve, Known, ValidRules, IsRuleFor, AtRanks, InPlace, IDsOf, SelectedIDs;
    ClashShows(net, x, ip, site, i, j);
    SelectedAreClean(site);
    ClashRanked(x, SelectedIDs(site), i, j);
  }

  /** With any parser that knows at least one rule and an address it matches: a site's rules keep their
      meaning under all settings, for all clients, exactly when no two of its selected rule sets have IDs
      that differ only in case, or the site's own rules are not valid, so that nothing compiles. */
  lemma {:induction false} MeaningKeptExactly(net: Net, x: string, client: string, site: Site)
    requires IsRuleFor(net, x, client)
    ensures DistinctIgnoringCase(SelectedIDs(site)) || !OwnRulesValid(net, site) <==>
            (forall st, ranks, ip, asn: nat :: KeptUnder(net, site, st, ranks, ip, asn))
  {
    var ids := SelectedIDs(site);
    hide SelectedIDs, Ranked, KeepsMeaning, Resolve, Known, ValidRules, AtRanks;
    if DistinctIgnoringCase(ids) {
      forall st, ranks, ip, asn: nat | Ranked(st, ids, ranks)
        ensures KeptUnder(net, site, st, ranks, ip, asn)
      {
        CompilingKeepsMeaning(net, site, st, ranks, ip, asn);
      }
    } else if !OwnRulesValid(net, site) {
      forall st, ranks, ip, asn: nat | Ranked(st, ids, ranks)
        ensures KeptUnder(net, site, st, ranks, ip, asn)
      {
        InvalidOwnRules(net, site, st, ranks, ip, asn);
      }
    } else {
      var i, j :| 0 <= i < j < |ids| && Lower(ids[i]) == Lower(ids[j]);
      ClashBreaks(net, x, client, site, i, j);
    }
  }
}
