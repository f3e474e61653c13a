/** Resolving, compiling and deciding agree with the direct reading of the settings, as long as no two
    selected rule sets have IDs that differ only in case. */
module IPAgreement {
  import opened Common
  import opened Text
  import opened IPRules
  import opened IPAccess
  import opened IPDecision
  import opened IPMeaning

  ghost function Meanings(sources: seq<Source>): seq<Meant> {
    seq(|sources|, i requires 0 <= i < |sources| => Meaning(sources[i].allowFirst, sources[i].lists))
  }

  lemma MeaningsOfConcat(a: seq<Source>, b: seq<Source>)
    ensures Meanings(a + b) == Meanings(a) + Meanings(b)
  {
  }

  ghost predicate AllValid(net: Net, ms: seq<Meant>) {
    forall i :: 0 <= i < |ms| ==> ValidRules(net, ms[i])
  }

  // ---------- the first source to speak ----------

  ghost function First(net: Net, ms: seq<Meant>, ip: string, asn: nat): Verdict {
    if ms == [] then Silent
    else
      var v := First(net, ms[..|ms| - 1], ip, asn);
      if v != Silent then v else Says(net, ms[|ms| - 1], ip, asn)
  }

  lemma {:induction false} FirstSpeaks(net: Net, ms: seq<Meant>, ip: string, asn: nat)
    returns (i: nat)
    ensures First(net, ms, ip, asn) == Silent ==> forall j :: 0 <= j < |ms| ==> Says(net, ms[j], ip, asn) == Silent
    ensures First(net, ms, ip, asn) != Silent ==>
      i < |ms| && FirstToSpeak(net, ms, ip, asn, i) && Says(net, ms[i], ip, asn) == First(net, ms, ip, asn)
  {
    if ms == [] {
      return 0;
    }
    var rest := ms[..|ms| - 1];
    i := FirstSpeaks(net, rest, ip, asn);
    if First(net, rest, ip, asn) == Silent {
      assert forall j :: 0 <= j < |rest| ==> Says(net, rest[j], ip, asn) == Says(net, ms[j], ip, asn);
      return |ms| - 1;
    }
  }

  lemma DirectlyDeniedIs(net: Net, ms: seq<Meant>, ip: string, asn: nat)
    ensures DirectlyDenied(net, ms, ip, asn) ==
            if !net.isIP(ip) || First(net, ms, ip, asn) == Silent then SomeAllow(net, ms)
            else First(net, ms, ip, asn) == Refuse
  {
    var i := FirstSpeaks(net, ms, ip, asn);
    if First(net, ms, ip, asn) != Silent {
      forall k | 0 <= k < |ms| && FirstToSpeak(net, ms, ip, asn, k)
        ensures k == i
      {
      }
    }
  }

  // ---------- sources compiled one by one ----------

  function CompiledEach(net: Net, sources: seq<Source>): Option<seq<CompiledSource>> {
    if sources == [] then Some([])
    else
      var before, s := CompiledEach(net, sources[..|sources| - 1]), sources[|sources| - 1];
      var c := CompiledLists(net, Key(s.name), s.allowFirst, s.lists);
      if before.None? || c.None? then None else Some(before.value + [c.value])
  }

  lemma SomeAllowOfOneMore(net: Net, ms: seq<Meant>, m: Meant)
    ensures SomeAllow(net, ms + [m]) <==> SomeAllow(net, ms) || AllowsSomething(net, m)
  {
    assert (ms + [m])[|ms|] == m;
    if i :| 0 <= i < |ms| && AllowsSomething(net, ms[i]) {
      assert (ms + [m])[i] == ms[i];
    }
  }

  lemma AllValidOfOneMore(net: Net, ms: seq<Meant>, m: Meant)
    ensures AllValid(net, ms + [m]) <==> AllValid(net, ms) && ValidRules(net, m)
  {
    assert (ms + [m])[|ms|] == m;
    assert forall i :: 0 <= i < |ms| ==> (ms + [m])[i] == ms[i];
  }

  /** The compiled sources say what the meanings say. */
  ghost predicate Agree(net: Net, cs: Option<seq<CompiledSource>>, ms: seq<Meant>, ip: string, asn: nat) {
    && (cs.Some? <==> AllValid(net, ms))
    && (cs.Some? ==> FirstVerdict(net, cs.value, ip, asn) == First(net, ms, ip, asn))
    && (cs.Some? ==> (AnyAllow(cs.value) <==> SomeAllow(net, ms)))
  }

  lemma {:induction false} AgreeOnOneMore(net: Net, cs: Option<seq<CompiledSource>>, ms: seq<Meant>, key: string, allowFirst: bool,
                       l: Lists, ip: string, asn: nat)
    requires Agree(net, cs, ms, ip, asn)
    ensures var c := CompiledLists(net, key, allowFirst, l);
            Agree(net, if cs.None? || c.None? then None else Some(cs.value + [c.value]),
                  ms + [Meaning(allowFirst, l)], ip, asn)
  {
    var c, m := CompiledLists(net, key, allowFirst, l), Meaning(allowFirst, l);
    CompiledListsMean(net, key, allowFirst, l, ip, asn);
    SomeAllowOfOneMore(net, ms, m);
    AllValidOfOneMore(net, ms, m);
    assert (ms + [m])[..|ms|] == ms;
    if cs.Some? && c.Some? {
      FirstVerdictOfOneMore(net, cs.value, c.value, ip, asn);
      AnyAllowOfOneMore(cs.value, c.value);
    }
  }

  lemma AgreeWithoutEmpty(net: Net, cs: Option<seq<CompiledSource>>, ms: seq<Meant>, allowFirst: bool,
                          ip: string, asn: nat)
    requires Agree(net, cs, ms, ip, asn)
    ensures Agree(net, cs, ms + [Meant(allowFirst, {}, {}, {}, {})], ip, asn)
  {
    var m := Meant(allowFirst, {}, {}, {}, {});
    SomeAllowOfOneMore(net, ms, m);
    AllValidOfOneMore(net, ms, m);
    assert (ms + [m])[..|ms|] == ms;
  }

  lemma ContributingOfOneMore(rest: seq<Source>, s: Source)
    ensures Contributing(rest + [s]) ==
            if Clean(s.lists) == NO_RULES then Contributing(rest) else Contributing(rest) + [s.(lists := Clean(s.lists))]
  {
    assert (rest + [s])[..|rest|] == rest;
  }

  lemma NothingAgrees(net: Net, ip: string, asn: nat)
    ensures Agree(net, CompiledEach(net, Contributing([])), Meanings([]), ip, asn)
  {
  }

  lemma MeaningsOfOneMore(rest: seq<Source>, s: Source)
    ensures Meanings(rest + [s]) == Meanings(rest) + [Meaning(s.allowFirst, s.lists)]
  {
  }

  /** Leaving out sources without rules, and removing duplicates in the others, changes nothing. */
  lemma {:induction false} EachAgrees(net: Net, raw: seq<Source>, ip: string, asn: nat)
    ensures Agree(net, CompiledEach(net, Contributing(raw)), Meanings(raw), ip, asn)
  {
    hide Contributing, CompiledEach, Agree, Meanings, Meaning, Clean;
    if raw == [] {
      NothingAgrees(net, ip, asn);
    } else {
      var rest, s := raw[..|raw| - 1], raw[|raw| - 1];
      assert raw == rest + [s];
      ContributingOfOneMore(rest, s);
      MeaningsOfOneMore(rest, s);
      EachAgrees(net, rest, ip, asn);
      SourceAgrees(net, Contributing(rest), Meanings(rest), s, ip, asn);
    }
  }

  lemma {:induction false} SourceAgrees(net: Net, before: seq<Source>, ms: seq<Meant>, s: Source, ip: string, asn: nat)
    requires Agree(net, CompiledEach(net, before), ms, ip, asn)
    ensures var all := if Clean(s.lists) == NO_RULES then before else before + [s.(lists := Clean(s.lists))];
            Agree(net, CompiledEach(net, all), ms + [Meaning(s.allowFirst, s.lists)], ip, asn)
  {
    CleanKeepsMeaning(s.allowFirst, s.lists);
    if Clean(s.lists) == NO_RULES {
      AgreeWithoutEmpty(net, CompiledEach(net, before), ms, s.allowFirst, ip, asn);
    } else {
      var clean := s.(lists := Clean(s.lists));
      assert (before + [clean])[..|before|] == before;
      AgreeOnOneMore(net, CompiledEach(net, before), ms, Key(s.name), s.allowFirst, clean.lists, ip, asn);
    }
  }

  // ---------- keys ----------

  ghost predicate DistinctKeys(sources: seq<Source>) {
    && (forall i :: 0 <= i < |sources| ==> Key(sources[i].name) != "")
    && (forall i, j :: 0 <= i < j < |sources| ==> Key(sources[i].name) != Key(sources[j].name))
  }

  ghost function Keys(sources: seq<Source>): set<string> {
    set s | s in sources :: Key(s.name)
  }

  lemma KeysOfOneMore(sources: seq<Source>, s: Source)
    ensures Keys(sources + [s]) == Keys(sources) + {Key(s.name)}
    ensures DistinctKeys(sources + [s]) <==>
            DistinctKeys(sources) && Key(s.name) != "" && Key(s.name) !in Keys(sources)
  {
    var all := sources + [s];
    assert all[|sources|] == s && all[..|sources|] == sources;
    if DistinctKeys(all) {
      forall i | 0 <= i < |sources|
        ensures Key(sources[i].name) != "" && Key(sources[i].name) != Key(s.name)
      {
        assert sources[i] == all[i];
      }
      forall i, j | 0 <= i < j < |sources|
        ensures Key(sources[i].name) != Key(sources[j].name)
      {
        assert sources[i] == all[i] && sources[j] == all[j];
      }
    }
  }

  lemma {:induction false} ContributingKeys(raw: seq<Source>)
    requires DistinctKeys(raw)
    ensures DistinctKeys(Contributing(raw)) && Keys(Contributing(raw)) <= Keys(raw)
  {
    if raw != [] {
      var rest, s := raw[..|raw| - 1], raw[|raw| - 1];
      assert raw == rest + [s];
      KeysOfOneMore(rest, s);
      ContributingKeys(rest);
      KeysOfOneMore(Contributing(rest), s.(lists := Clean(s.lists)));
    }
  }

  lemma MapOfOneMore(sources: seq<Source>, s: Source)
    ensures SourceMap(sources + [s]) == if Key(s.name) == "" then SourceMap(sources) else SourceMap(sources)[Key(s.name) := s]
  {
    assert (sources + [s])[..|sources|] == sources;
  }

  lemma {:induction false} MapHolds(sources: seq<Source>)
    requires DistinctKeys(sources)
    ensures SourceMap(sources).Keys == Keys(sources)
    ensures forall s :: s in sources ==> SourceMap(sources)[Key(s.name)] == s
  {
    if sources != [] {
      var rest, last := sources[..|sources| - 1], sources[|sources| - 1];
      assert sources == rest + [last];
      KeysOfOneMore(rest, last);
      MapOfOneMore(rest, last);
      hide SourceMap;
      MapHolds(rest);
    }
  }

  lemma {:induction false} NamedIsEach(net: Net, m: map<string, Source>, sources: seq<Source>)
    requires forall s :: s in sources ==> Key(s.name) != "" && Key(s.name) in m && m[Key(s.name)] == s
    ensures CompiledNamed(net, m, Names(sources)) == CompiledEach(net, sources)
  {
    if sources != [] {
      var rest, last := sources[..|sources| - 1], sources[|sources| - 1];
      NamedIsEach(net, m, rest);
      assert Names(sources)[..|sources| - 1] == Names(rest);
      assert last in sources;
    }
  }

  /** With distinct keys the map gives back each source under its own name. */
  lemma {:induction false} CompilesEach(net: Net, raw: seq<Source>, ids: seq<string>)
    requires DistinctKeys(raw)
    ensures var c, r := Contributing(raw), Resolution(raw, ids);
            (if r.order != [] && r.sources != [] then CompiledNamed(net, SourceMap(r.sources), r.order) else Some([]))
            == CompiledEach(net, c)
  {
    var c := Contributing(raw);
    ContributingKeys(raw);
    MapHolds(c);
    if c != [] {
      forall s | s in c
        ensures Key(s.name) != ""
      {
        var i :| 0 <= i < |c| && c[i] == s;
      }
      NamedIsEach(net, SourceMap(c), c);
    }
  }

  // ---------- the selected rule sets ----------

  lemma {:induction false} SelectAt(st: Settings, ids: seq<string>, k: nat)
    requires Select(st, ids).Some? && k < |ids|
    ensures |Select(st, ids).value| == |ids|
    ensures EffectiveOf(st, ids[k]).Some? && Select(st, ids).value[k] == Selected(k, EffectiveOf(st, ids[k]).value)
    decreases |ids|
  {
    hide EffectiveOf;
    var n := |ids| - 1;
    if n > 0 {
      SelectAt(st, ids[..n], if k < n then k else 0);
    }
  }

  /** The selected rule sets in order. */
  ghost predicate Arranged(st: Settings, ids: seq<string>, ordered: seq<Selected>) {
    Select(st, ids).Some? && InOrder(ordered) && multiset(ordered) == multiset(Select(st, ids).value)
  }

  ghost predicate Picked(st: Settings, ids: seq<string>, x: Selected) {
    x.index < |ids| && x.ruleSet.id == ids[x.index] && EffectiveOf(st, x.ruleSet.id) == Some(x.ruleSet)
  }

  lemma {:induction false} RankedItems(st: Settings, ids: seq<string>, ordered: seq<Selected>)
    requires Arranged(st, ids, ordered)
    ensures forall i :: 0 <= i < |ordered| ==> Picked(st, ids, ordered[i])
    ensures forall i, j :: 0 <= i < j < |ordered| ==> ordered[i].index != ordered[j].index
    ensures Known(st, IDsOf(ordered))
  {
    var s := Select(st, ids).value;
    forall i | 0 <= i < |ordered|
      ensures Picked(st, ids, ordered[i])
    {
      assert ordered[i] in multiset(s);
      var k :| 0 <= k < |s| && s[k] == ordered[i];
      SortFactsSelected(st, ids);
      SelectAt(st, ids, k);
    }
    forall i, j | 0 <= i < j < |ordered|
      ensures ordered[i].index != ordered[j].index
    {
      assert Picked(st, ids, ordered[i]) && Picked(st, ids, ordered[j]);
    }
    forall i | 0 <= i < |IDsOf(ordered)|
      ensures IDsOf(ordered)[i] != "" && RuleSetOf(st.ruleSets, IDsOf(ordered)[i]).Some?
    {
      assert Picked(st, ids, ordered[i]);
    }
  }

  lemma EffectiveExactly(st: Settings, id: string)
    ensures EffectiveOf(st, id).Some? <==> id != "" && RuleSetOf(st.ruleSets, id).Some?
  {
    hide RuleSetOf, CountryOf;
  }

  lemma KnownOneMore(st: Settings, ids: seq<string>, id: string)
    ensures Known(st, ids + [id]) <==> Known(st, ids) && id != "" && RuleSetOf(st.ruleSets, id).Some?
  {
    hide RuleSetOf;
    var all := ids + [id];
    assert all[|ids|] == id && forall i :: 0 <= i < |ids| ==> all[i] == ids[i];
  }

  lemma {:induction false} SelectFailsExactly(st: Settings, ids: seq<string>)
    ensures Select(st, ids).Some? <==> Known(st, ids)
  {
    if ids != [] {
      var n := |ids| - 1;
      hide EffectiveOf, RuleSetOf, Known;
      SelectFailsExactly(st, ids[..n]);
      EffectiveExactly(st, ids[n]);
      KnownOneMore(st, ids[..n], ids[n]);
      assert ids == ids[..n] + [ids[n]];
    }
  }

  /** Resolving fails exactly when a selected rule set does not exist; else it names the selected rule sets, and the
      contributing sources in the order it reads them. */
  lemma {:induction false} ResolutionFailsExactly(site: Site, st: Settings)
    ensures Resolve(site, st).Some? <==> Known(st, SelectedIDs(site))
    ensures Resolve(site, st).Some? ==>
              var r := Resolve(site, st).value;
              && r.ruleSetIDs == SelectedIDs(site)
              && |r.order| == |r.sources| && forall i :: 0 <= i < |r.order| ==> r.order[i] == r.sources[i].name
  {
    SelectFailsExactly(st, SelectedIDs(site));
  }

  // ---------- names of sources ----------

  ghost predicate OfKind(key: string, kind: Kind) {
    match kind
    case SiteKind => key == "site"
    case CustomKind => "custom:" <= key
    case CountryKind => "country:" <= key
  }

  lemma KindsApart(key: string, k1: Kind, k2: Kind)
    requires OfKind(key, k1) && OfKind(key, k2)
    ensures k1 == k2
  {
    assert key[1] == match k1 case SiteKind => 'i' case CustomKind => 'u' case CountryKind => 'o';
    assert key[1] == match k2 case SiteKind => 'i' case CustomKind => 'u' case CountryKind => 'o';
  }

  lemma KeyWithPrefix(prefix: string, id: string)
    requires prefix in {"custom:", "country:"} && id != "" && Trim(id) == id
    ensures Key(prefix + id) == prefix + Lower(id)
  {
    TrimFacts(id);
    var name := prefix + id;
    assert name[0] == 'c' && name[|name| - 1] == id[|id| - 1];
    TrimFacts(name);
    LowerConcat(prefix, id);
    assert Lower(prefix) == prefix;
  }

  lemma SiteKey()
    ensures Key("site") == "site"
  {
    TrimFacts("site");
    assert Lower("site") == "site";
  }

  ghost predicate Distinguished(ordered: seq<Selected>) {
    && (forall i :: 0 <= i < |ordered| ==> ordered[i].ruleSet.id != "" && Trim(ordered[i].ruleSet.id) == ordered[i].ruleSet.id)
    && (forall i, j :: 0 <= i < j < |ordered| ==> Lower(ordered[i].ruleSet.id) != Lower(ordered[j].ruleSet.id))
  }

  lemma {:induction false} RankedDistinguished(site: Site, st: Settings, ordered: seq<Selected>)
    requires Arranged(st, SelectedIDs(site), ordered) && DistinctIgnoringCase(SelectedIDs(site))
    ensures Distinguished(ordered)
  {
    var ids := SelectedIDs(site);
    RankedItems(st, ids, ordered);
    MergeHolds(site.ruleSetIDs + [site.ruleSetID]);
    forall i | 0 <= i < |ordered|
      ensures ordered[i].ruleSet.id != "" && Trim(ordered[i].ruleSet.id) == ordered[i].ruleSet.id
    {
      assert Picked(st, ids, ordered[i]);
      assert ids[ordered[i].index] in ids;
    }
    forall i, j | 0 <= i < j < |ordered|
      ensures Lower(ordered[i].ruleSet.id) != Lower(ordered[j].ruleSet.id)
    {
      assert Picked(st, ids, ordered[i]) && Picked(st, ids, ordered[j]);
    }
  }

  lemma {:induction false} BlockKeys(site: Site, kind: Kind, ordered: seq<Selected>)
    requires Distinguished(ordered)
    ensures DistinctKeys(Block(site, kind, ordered))
    ensures forall key :: key in Keys(Block(site, kind, ordered)) ==> OfKind(key, kind)
  {
    SiteKey();
    var block := Block(site, kind, ordered);
    if !kind.SiteKind? {
      var prefix := if kind.CustomKind? then "custom:" else "country:";
      forall i | 0 <= i < |block|
        ensures Key(block[i].name) == prefix + Lower(ordered[i].ruleSet.id)
      {
        KeyWithPrefix(prefix, ordered[i].ruleSet.id);
      }
      forall i, j | 0 <= i < j < |block|
        ensures Key(block[i].name) != Key(block[j].name)
      {
        assert Key(block[i].name)[|prefix|..] == Lower(ordered[i].ruleSet.id);
        assert Key(block[j].name)[|prefix|..] == Lower(ordered[j].ruleSet.id);
      }
    }
  }

  lemma DistinctTogether(a: seq<Source>, b: seq<Source>)
    requires DistinctKeys(a) && DistinctKeys(b) && Keys(a) !! Keys(b)
    ensures DistinctKeys(a + b) && Keys(a + b) == Keys(a) + Keys(b)
  {
    forall i, j | 0 <= i < |a| && 0 <= j < |b|
      ensures Key(a[i].name) != Key(b[j].name)
    {
      assert Key(a[i].name) in Keys(a) && Key(b[j].name) in Keys(b);
    }
  }

  lemma {:induction false} SourceKeys(site: Site, order: seq<Kind>, ordered: seq<Selected>)
    requires Distinguished(ordered) && Distinct(order)
    ensures DistinctKeys(Sources(site, order, ordered))
    ensures forall key :: key in Keys(Sources(site, order, ordered)) ==> exists k :: k in order && OfKind(key, k)
  {
    if order != [] {
      var rest, kind := order[..|order| - 1], order[|order| - 1];
      SourceKeys(site, rest, ordered);
      BlockKeys(site, kind, ordered);
      var a, b := Sources(site, rest, ordered), Block(site, kind, ordered);
      forall key | key in Keys(a) && key in Keys(b)
        ensures false
      {
        var k :| k in rest && OfKind(key, k);
        KindsApart(key, k, kind);
      }
      DistinctTogether(a, b);
      assert kind in order;
    }
  }

  // ---------- the sources mean what is read ----------

  lemma {:induction false} BlockMeans(site: Site, st: Settings, kind: Kind, ordered: seq<Selected>, ids: seq<string>)
    requires forall i :: 0 <= i < |ordered| ==> Picked(st, ids, ordered[i])
    requires Known(st, IDsOf(ordered))
    ensures Meanings(Block(site, kind, ordered)) == ReadingOfKind(site, st, kind, IDsOf(ordered))
  {
    if !kind.SiteKind? {
      forall i | 0 <= i < |ordered|
        ensures Meanings(Block(site, kind, ordered))[i] == MeantBy(site, st, kind, IDsOf(ordered)[i])
      {
        assert Picked(st, ids, ordered[i]);
        ConflictMeans(RuleSetOf(st.ruleSets, ordered[i].ruleSet.id).value.conflict);
        if kind.CountryKind? {
          CountryBlockMeans(st, ordered[i].ruleSet);
        }
      }
    }
  }

  lemma {:induction false} CountryBlockMeans(st: Settings, e: Effective)
    requires EffectiveOf(st, e.id) == Some(e)
    ensures var s := CountrySource(e);
            Meaning(s.allowFirst, s.lists) ==
            Meant(e.allowFirst, CountryValues(st.tasks, e.id, false), CountryValues(st.tasks, e.id, true), {}, {})
  {
    assert st.tasks[..|st.tasks|] == st.tasks;
    forall v, deny: bool
      ensures v in Values(CountryOf(st.tasks, e.id, deny)) <==> v in CountryValues(st.tasks, e.id, deny)
    {
      CountryListsMean(st.tasks, e.id, deny, v);
    }
  }

  lemma {:induction false} SourcesMean(
    site: Site, st: Settings, order: seq<Kind>, ordered: seq<Selected>, ids: seq<string>)
    requires forall i :: 0 <= i < |ordered| ==> Picked(st, ids, ordered[i])
    requires Known(st, IDsOf(ordered))
    ensures Meanings(Sources(site, order, ordered)) == Reading(site, st, order, IDsOf(ordered))
  {
    if order != [] {
      var rest, kind := order[..|order| - 1], order[|order| - 1];
      SourcesMean(site, st, rest, ordered, ids);
      var a, b := Sources(site, rest, ordered), Block(site, kind, ordered);
      MeaningsOfConcat(a, b);
      BlockMeans(site, st, kind, ordered, ids);
    }
  }

  // ---------- the result ----------

  /** Compiling succeeds exactly when all rules are valid, and then decides as read. */
  ghost predicate KeepsMeaning(net: Net, site: Site, st: Settings, ranked: seq<string>, ip: string, asn: nat)
    requires Resolve(site, st).Some? && Known(st, ranked)
  {
    var policy := Compiled(net, Resolve(site, st).value);
    var ms := Reading(site, st, EffectiveOrder(st.sourceOrder), ranked);
    && (policy.Some? <==> AllValid(net, ms))
    && (policy.Some? ==> DeniedByPolicy(net, policy.value, ip, asn) == DirectlyDenied(net, ms, ip, asn))
  }

  lemma {:induction false} NamedDecide(net: Net, raw: seq<Source>, ids: seq<string>, ip: string, asn: nat)
    requires DistinctKeys(raw)
    ensures var policy, ms := Compiled(net, Resolution(raw, ids)), Meanings(raw);
            && (policy.Some? <==> AllValid(net, ms))
            && (policy.Some? ==> FirstVerdict(net, policy.value.sources, ip, asn) == First(net, ms, ip, asn))
            && (policy.Some? ==> (policy.value.anyAllow <==> SomeAllow(net, ms)))
  {
    CompilesEach(net, raw, ids);
    EachAgrees(net, raw, ip, asn);
    var named := CompiledEach(net, Contributing(raw));
    if named.Some? && named.value == [] {
      NoneCompiled(net, Contributing(raw));
      assert CompiledLists(net, "legacy", false, NO_RULES).Some?;
    }
  }

  lemma NoneCompiled(net: Net, sources: seq<Source>)
    requires CompiledEach(net, sources) == Some([])
    ensures sources == []
  {
  }

  /** What the site's settings resolve to: the sources of the ranked rule sets, in the effective order. */
  lemma {:induction false} RankedResolve(site: Site, st: Settings, ordered: seq<Selected>)
    requires Arranged(st, SelectedIDs(site), ordered)
    ensures var ids, order := SelectedIDs(site), EffectiveOrder(st.sourceOrder);
            && Resolve(site, st) == Some(Resolution(Sources(site, order, ordered), ids))
            && Known(st, IDsOf(ordered)) && forall k :: 0 <= k < |ordered| ==> Picked(st, ids, ordered[k])
  {
    hide Sources, Resolution, SelectedIDs, EffectiveOrder, Select, SortSelected, InOrder;
    var ids := SelectedIDs(site);
    RankedItems(st, ids, ordered);
    SortFactsSelected(st, ids);
    RankedIsSorted(st, ids, ordered);
  }

  lemma {:induction false} RankedIsSorted(st: Settings, ids: seq<string>, ordered: seq<Selected>)
    requires Arranged(st, ids, ordered) && Select(st, ids).Some?
    ensures ordered == SortSelected(Select(st, ids).value)
  {
    SortFactsSelected(st, ids);
    OrderUnique(ordered, SortSelected(Select(st, ids).value));
  }

  lemma {:induction false} ArrangedKeepsMeaning(
    net: Net, site: Site, st: Settings, ordered: seq<Selected>, ip: string, asn: nat)
    requires Arranged(st, SelectedIDs(site), ordered)
    requires DistinctIgnoringCase(SelectedIDs(site))
    ensures Resolve(site, st).Some? && Known(st, IDsOf(ordered))
    ensures KeepsMeaning(net, site, st, IDsOf(ordered), ip, asn)
  {
    hide Sources, Compiled, Reading, Resolution, AllValid;
    var ids, order := SelectedIDs(site), EffectiveOrder(st.sourceOrder);
    RankedResolve(site, st, ordered);
    RankedDistinguished(site, st, ordered);
    OrderIsComplete(st.sourceOrder);
    SourceKeys(site, order, ordered);
    SourcesMean(site, st, order, ordered, ids);
    NamedDecide(net, Sources(site, order, ordered), ids, ip, asn);
    DirectlyDeniedIs(net, Reading(site, st, order, IDsOf(ordered)), ip, asn);
  }

  /** A policy without sources is read as one source of the flat lists, deny first. */
  lemma {:induction false} FlatPolicyMeans(net: Net, r: Resolved, ip: string, asn: nat)
    requires r.order == [] || r.sources == []
    ensures var policy, ms := Compiled(net, r), [Meaning(false, r.access)];
            && (policy.Some? <==> AllValid(net, ms))
            && (policy.Some? ==> DeniedByPolicy(net, policy.value, ip, asn) == DirectlyDenied(net, ms, ip, asn))
  {
    hide CompiledLists, Says, Meaning, ValidRules, AllowsSomething, SourceVerdict, HasAllow, Compiled, DirectlyDenied, First;
    var m, c := Meaning(false, r.access), CompiledLists(net, "legacy", false, r.access);
    FlatPolicyIs(net, r, ip, asn);
    CompiledListsMean(net, "legacy", false, r.access, ip, asn);
    DirectlyDeniedIs(net, [m], ip, asn);
    OneMeant(net, m, ip, asn);
  }

  lemma FlatPolicyIs(net: Net, r: Resolved, ip: string, asn: nat)
    requires r.order == [] || r.sources == []
    ensures var c := CompiledLists(net, "legacy", false, r.access);
            && Compiled(net, r) == (if c.None? then None else Some(Policy([c.value], HasAllow(c.value))))
            && (c.Some? ==> FirstVerdict(net, [c.value], ip, asn) == SourceVerdict(net, c.value, ip, asn))
  {
    hide CompiledLists, SourceVerdict, HasAllow;
  }

  lemma OneMeant(net: Net, m: Meant, ip: string, asn: nat)
    ensures First(net, [m], ip, asn) == Says(net, m, ip, asn)
    ensures SomeAllow(net, [m]) <==> AllowsSomething(net, m)
    ensures AllValid(net, [m]) <==> ValidRules(net, m)
  {
    hide Says, AllowsSomething, ValidRules;
    SomeAllowOfOneMore(net, [], m);
    AllValidOfOneMore(net, [], m);
    assert [] + [m] == [m] && [m][..0] == [];
  }

  // ---------- ranks ----------

  function AtPlaces(all: seq<Selected>, ranks: seq<nat>): seq<Selected>
    requires forall i :: 0 <= i < |ranks| ==> ranks[i] < |all|
  {
    seq(|ranks|, i requires 0 <= i < |ranks| => all[ranks[i]])
  }

  lemma RankedSelected(st: Settings, ids: seq<string>, k: nat)
    requires Known(st, ids) && k < |ids|
    ensures Select(st, ids).Some? && |Select(st, ids).value| == |ids|
    ensures var x := Select(st, ids).value[k];
            x.index == k && x.ruleSet.id == ids[k] && x.ruleSet.priority == RuleSetOf(st.ruleSets, ids[k]).value.priority
  {
    SelectFailsExactly(st, ids);
    SelectAt(st, ids, k);
  }

  /** A ranking of the IDs is the order of the selected rule sets. */
  lemma {:induction false} RanksArrange(st: Settings, ids: seq<string>, ranks: seq<nat>) returns (ordered: seq<Selected>)
    requires Ranked(st, ids, ranks)
    ensures Arranged(st, ids, ordered) && IDsOf(ordered) == AtRanks(ids, ranks)
  {
    hide Select, RuleSetOf;
    SelectFailsExactly(st, ids);
    SortFactsSelected(st, ids);
    var all := Select(st, ids).value;
    ordered := AtPlaces(all, ranks);
    forall k: nat | k < |ids|
      ensures all[k].index == k && all[k].ruleSet.id == ids[k]
    {
      RankedSelected(st, ids, k);
    }
    PlacesPermute(all, ranks);
    forall i, j | 0 <= i < j < |ordered|
      ensures ordered[i].ruleSet.priority >= ordered[j].ruleSet.priority
      ensures ordered[i].ruleSet.priority == ordered[j].ruleSet.priority ==> ordered[i].index < ordered[j].index
    {
      RankedSelected(st, ids, ranks[i]);
      RankedSelected(st, ids, ranks[j]);
      assert Outranks(st, ids, ranks[i], ranks[j]);
    }
  }

  lemma PlacesPermute(all: seq<Selected>, ranks: seq<nat>)
    requires EachOnce(ranks, |all|)
    requires forall k :: 0 <= k < |all| ==> all[k].index == k
    ensures multiset(AtPlaces(all, ranks)) == multiset(all)
  {
    var ordered := AtPlaces(all, ranks);
    assert Distinct(ordered) && Distinct(all);
    forall x
      ensures x in ordered <==> x in all
    {
      if x in all {
        var k :| 0 <= k < |all| && all[k] == x;
        assert k in ranks;
        var i :| 0 <= i < |ranks| && ranks[i] == k;
        assert ordered[i] == x;
      }
    }
    SameMembersPermute(ordered, all);
  }

  /** For every site whose selected rule sets differ in more than case, under all settings, and with the
      selected rule sets ranked by priority. */
  lemma {:induction false} CompilingKeepsMeaning(net: Net, site: Site, st: Settings, ranks: seq<nat>, ip: string, asn: nat)
    requires Ranked(st, SelectedIDs(site), ranks)
    requires DistinctIgnoringCase(SelectedIDs(site))
    ensures var ranked := AtRanks(SelectedIDs(site), ranks);
            Resolve(site, st).Some? && Known(st, ranked) && KeepsMeaning(net, site, st, ranked, ip, asn)
  {
    hide KeepsMeaning, Known, Arranged, Resolve;
    var ordered := RanksArrange(st, SelectedIDs(site), ranks);
    ArrangedKeepsMeaning(net, site, st, ordered, ip, asn);
  }

  /** If all selected rule sets exist there is such a ranking. */
  lemma {:induction false} RanksExist(st: Settings, ids: seq<string>) returns (ranks: seq<nat>)
    requires Known(st, ids)
    ensures Ranked(st, ids, ranks)
  {
    hide Select, SortSelected, RuleSetOf;
    SelectFailsExactly(st, ids);
    SortFactsSelected(st, ids);
    var all := Select(st, ids).value;
    var ordered := SortSelected(all);
    forall k: nat | k < |ids|
      ensures all[k].index == k && all[k].ruleSet.id == ids[k]
    {
      RankedSelected(st, ids, k);
    }
    ranks := IndicesOf(ordered);
    IndicesEachOnce(all, ordered);
    forall i, j | 0 <= i < j < |ranks|
      ensures Outranks(st, ids, ranks[i], ranks[j])
    {
      RankedSelected(st, ids, ranks[i]);
      RankedSelected(st, ids, ranks[j]);
    }
  }

  function IndicesOf(ordered: seq<Selected>): seq<nat> {
    seq(|ordered|, i requires 0 <= i < |ordered| => ordered[i].index)
  }

  lemma IndicesEachOnce(all: seq<Selected>, ordered: seq<Selected>)
    requires multiset(ordered) == multiset(all) && forall k :: 0 <= k < |all| ==> all[k].index == k
    ensures EachOnce(IndicesOf(ordered), |all|)
    ensures forall i :: 0 <= i < |ordered| ==> ordered[i].index < |all| && ordered[i] == all[ordered[i].index]
  {
    forall i | 0 <= i < |ordered|
      ensures ordered[i].index < |all| && ordered[i] == all[ordered[i].index]
    {
      assert ordered[i] in multiset(all);
    }
    PermutationIsDistinct(ordered, all);
    forall k: nat | k < |all|
      ensures k in IndicesOf(ordered)
    {
      assert all[k] in multiset(ordered);
      var i :| 0 <= i < |ordered| && ordered[i] == all[k];
      assert IndicesOf(ordered)[i] == k;
    }
  }
}
