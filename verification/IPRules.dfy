/** The settings a site's IP access rules are made of.

    Rule lists and how they are cleaned and merged, rule sets, country tasks, and the order in which the
    kinds of rules are read. */
module IPRules {
  import opened Common
  import opened Text

  // ---------- rule lists ----------

  datatype Lists = Lists(
    allow: seq<string>, deny: seq<string>, allowASNs: seq<string>, denyASNs: seq<string>, denyReputation: seq<string>)

  const NO_RULES := Lists([], [], [], [], [])

  /** Trimmed, without blanks, each value once, in order of first appearance. */
  function Merge(items: seq<string>): seq<string> {
    if items == [] then []
    else
      var before, value := Merge(items[..|items| - 1]), Trim(items[|items| - 1]);
      if value == "" || value in before then before else before + [value]
  }

  method MergeStringList(items: seq<string>) returns (merged: seq<string>)
    ensures merged == Merge(items)
  {
    merged := [];
    var seen: set<string> := {};
    for i := 0 to |items|
      invariant merged == Merge(items[..i])
      invariant seen == set v | v in merged
    {
      assert items[..i + 1][..i] == items[..i];
      var value := Trim(items[i]);
      if value == "" || value in seen {
        continue;
      }
      seen := seen + {value};
      merged := merged + [value];
    }
    assert items[..|items|] == items;
  }

  /** All that a list means: its values, trimmed, blanks dropped. */
  ghost function Values(items: seq<string>): set<string> {
    set x | x in items && Trim(x) != "" :: Trim(x)
  }

  lemma ValuesOfConcat(a: seq<string>, b: seq<string>)
    ensures Values(a + b) == Values(a) + Values(b)
  {
  }

  lemma ValuesOfOne(x: string)
    ensures Values([x]) == if Trim(x) == "" then {} else {Trim(x)}
  {
    if Trim(x) != "" {
      assert x in [x];
    }
  }

  lemma {:induction false} MergeHolds(items: seq<string>)
    ensures forall v :: v in Merge(items) <==> v in Values(items)
    ensures forall v :: v in Merge(items) ==> v != "" && Trim(v) == v
  {
    if items != [] {
      var rest, last := items[..|items| - 1], items[|items| - 1];
      MergeHolds(rest);
      assert items == rest + [last];
      ValuesOfConcat(rest, [last]);
      ValuesOfOne(last);
      TrimFacts(last);
      TrimFacts(Trim(last));
    }
  }

  /** Merging changes what is written, not what is meant. */
  lemma {:induction false} MergeKeepsValues(items: seq<string>)
    ensures Values(Merge(items)) == Values(items)
    ensures forall v :: v in Merge(items) <==> v in Values(items)
  {
    MergeHolds(items);
    forall v
      ensures v in Values(Merge(items)) <==> v in Merge(items)
    {
      if v in Merge(items) {
        assert v == Trim(v);
      }
    }
  }

  /** The first occurrence of a comes before any of b. */
  ghost predicate OccursFirst(items: seq<string>, a: string, b: string) {
    exists i :: 0 <= i < |items| && Trim(items[i]) == a && forall j :: 0 <= j <= i ==> Trim(items[j]) != b
  }

  lemma OccursFirstLater(items: seq<string>, more: seq<string>, a: string, b: string)
    requires OccursFirst(items, a, b)
    ensures OccursFirst(items + more, a, b)
  {
    var i :| 0 <= i < |items| && Trim(items[i]) == a && forall j :: 0 <= j <= i ==> Trim(items[j]) != b;
    assert forall j :: 0 <= j <= i ==> (items + more)[j] == items[j];
  }

  /** Each value is kept once, in the order of first occurrences. */
  lemma {:induction false} MergeInOrder(items: seq<string>)
    ensures var m := Merge(items);
            && Distinct(m) && (forall i, j :: 0 <= i < j < |m| ==> OccursFirst(items, m[i], m[j]))
            && forall v :: v in m <==> v != "" && exists k :: 0 <= k < |items| && Trim(items[k]) == v
  {
    if items != [] {
      var n := |items| - 1;
      var rest, value := items[..n], Trim(items[n]);
      MergeInOrder(rest);
      assert items == rest + [items[n]];
      var before, m := Merge(rest), Merge(items);
      forall i, j | 0 <= i < j < |m|
        ensures OccursFirst(items, m[i], m[j])
      {
        if j == |before| {
          assert before[i] in before;
          var k :| 0 <= k < n && Trim(rest[k]) == before[i];
          assert forall l :: 0 <= l <= k ==> Trim(rest[l]) != value;
          assert OccursFirst(rest, before[i], value);
        }
        OccursFirstLater(rest, [items[n]], m[i], m[j]);
      }
      forall v
        ensures v in m <==> v != "" && exists k :: 0 <= k < |items| && Trim(items[k]) == v
      {
        if k :| 0 <= k < n && Trim(rest[k]) == v {
          assert items[k] == rest[k];
        }
        assert v in m <==> v in before || (v == value && v != "");
      }
    }
  }

  function Clean(l: Lists): Lists {
    Lists(Merge(l.allow), Merge(l.deny), Merge(l.allowASNs), Merge(l.denyASNs), Merge(l.denyReputation))
  }

  // ---------- sources of rules ----------

  datatype Kind = SiteKind | CustomKind | CountryKind

  /** One source of a policy: its name, which of its lists wins, and the lists. */
  datatype Source = Source(name: string, allowFirst: bool, lists: Lists)

  datatype RuleSet = RuleSet(id: string, priority: int, conflict: string, lists: Lists)

  datatype CountryTask = CountryTask(enabled: bool, ruleSetID: string, list: string, cidrs: seq<string>)

  datatype Settings = Settings(ruleSets: seq<RuleSet>, tasks: seq<CountryTask>, sourceOrder: seq<string>)

  datatype Site = Site(access: Lists, ruleSetIDs: seq<string>, ruleSetID: string)

  /** Deny first only where it is asked for. */
  predicate AllowFirst(conflict: string) {
    Lower(Trim(conflict)) !in {"deny_first", "denyfirst", "deny-first"}
  }

  // ---------- the order of sources ----------

  function KindOf(source: string): Option<Kind> {
    var s := Lower(Trim(source));
    if s == "site" then Some(SiteKind)
    else if s in {"custom", "manual", "ruleset", "rule_set"} then Some(CustomKind)
    else if s in {"country", "geo"} then Some(CountryKind)
    else None
  }

  const DEFAULT_ORDER := [SiteKind, CustomKind, CountryKind]

  /** The recognised kinds, each once; None if an item is not recognised. */
  function Kinds(items: seq<string>): Option<seq<Kind>> {
    if items == [] then Some([])
    else
      var before, kind := Kinds(items[..|items| - 1]), KindOf(items[|items| - 1]);
      if before.None? || kind.None? then None
      else if kind.value in before.value then before
      else Some(before.value + [kind.value])
  }

  function Fill(kinds: seq<Kind>, n: nat): seq<Kind>
    requires n <= |DEFAULT_ORDER|
  {
    if n == 0 then kinds
    else
      var before := Fill(kinds, n - 1);
      if DEFAULT_ORDER[n - 1] in kinds then before else before + [DEFAULT_ORDER[n - 1]]
  }

  function EffectiveOrder(items: seq<string>): seq<Kind> {
    if items == [] || Kinds(items).None? then DEFAULT_ORDER else Fill(Kinds(items).value, |DEFAULT_ORDER|)
  }

  method NormalizeIPRuleSourceOrder(items: seq<string>) returns (order: Option<seq<Kind>>)
    ensures order == if items == [] then Some(DEFAULT_ORDER)
                     else if Kinds(items).None? then None
                     else Some(Fill(Kinds(items).value, |DEFAULT_ORDER|))
  {
    if |items| == 0 {
      return Some(DEFAULT_ORDER);
    }
    var out: seq<Kind>, seen: set<Kind> := [], {};
    for i := 0 to |items|
      invariant Kinds(items[..i]) == Some(out)
      invariant seen == set k | k in out
    {
      assert items[..i + 1][..i] == items[..i];
      var source := KindOf(items[i]);
      if source.None? {
        KindsStayNone(items, i + 1, |items|);
        assert items[..|items|] == items;
        return None;
      }
      if source.value in seen {
        continue;
      }
      seen := seen + {source.value};
      out := out + [source.value];
    }
    assert items[..|items|] == items;
    ghost var kinds := out;
    for i := 0 to |DEFAULT_ORDER|
      invariant out == Fill(kinds, i)
    {
      if DEFAULT_ORDER[i] !in seen {
        out := out + [DEFAULT_ORDER[i]];
      }
    }
    return Some(out);
  }

  lemma {:induction false} KindsStayNone(items: seq<string>, m: nat, n: nat)
    requires m <= n <= |items| && Kinds(items[..m]).None?
    ensures Kinds(items[..n]).None?
    decreases n
  {
    if m < n {
      KindsStayNone(items, m, n - 1);
      assert items[..n][..n - 1] == items[..n - 1];
    }
  }

  ghost predicate EachKindOnce(order: seq<Kind>) {
    Distinct(order) && forall k: Kind :: k in order
  }

  lemma {:induction false} KindsDistinct(items: seq<string>)
    requires Kinds(items).Some?
    ensures Distinct(Kinds(items).value)
  {
    if items != [] {
      KindsDistinct(items[..|items| - 1]);
    }
  }

  lemma {:induction false} FillAdds(kinds: seq<Kind>, n: nat)
    requires n <= |DEFAULT_ORDER| && Distinct(kinds)
    ensures Distinct(Fill(kinds, n))
    ensures forall k :: k in Fill(kinds, n) <==> k in kinds || k in DEFAULT_ORDER[..n]
  {
    if n > 0 {
      FillAdds(kinds, n - 1);
      assert DEFAULT_ORDER[..n] == DEFAULT_ORDER[..n - 1] + [DEFAULT_ORDER[n - 1]];
      assert DEFAULT_ORDER[n - 1] !in DEFAULT_ORDER[..n - 1];
    }
  }

  lemma DefaultHasAll(k: Kind)
    ensures k in DEFAULT_ORDER
  {
    match k
    case SiteKind => assert DEFAULT_ORDER[0] == k;
    case CustomKind => assert DEFAULT_ORDER[1] == k;
    case CountryKind => assert DEFAULT_ORDER[2] == k;
  }

  /** Whatever is configured, every kind of source has exactly one place in the order. */
  lemma OrderIsComplete(items: seq<string>)
    ensures EachKindOnce(EffectiveOrder(items))
  {
    forall k: Kind
      ensures k in DEFAULT_ORDER
    {
      DefaultHasAll(k);
    }
    if items != [] && Kinds(items).Some? {
      KindsDistinct(items);
      FillAdds(Kinds(items).value, |DEFAULT_ORDER|);
      assert DEFAULT_ORDER[..|DEFAULT_ORDER|] == DEFAULT_ORDER;
    }
  }

  // ---------- the order, as configured ----------

  /** The spellings of a kind. */
  ghost predicate Spells(item: string, kind: Kind) {
    var s := Trim(item);
    match kind
    case SiteKind => EqualFold(s, "site")
    case CustomKind => EqualFold(s, "custom") || EqualFold(s, "manual") || EqualFold(s, "ruleset") || EqualFold(s, "rule_set")
    case CountryKind => EqualFold(s, "country") || EqualFold(s, "geo")
  }

  lemma KindIsSpelled(item: string)
    ensures forall k :: KindOf(item) == Some(k) <==> Spells(item, k)
  {
    hide Trim;
    assert Lower("site") == "site" && Lower("custom") == "custom" && Lower("manual") == "manual";
    assert Lower("ruleset") == "ruleset" && Lower("rule_set") == "rule_set";
    assert Lower("country") == "country" && Lower("geo") == "geo";
  }

  ghost predicate Mentioned(items: seq<string>, k: Kind) {
    exists i :: 0 <= i < |items| && Spells(items[i], k)
  }

  ghost predicate MentionedFirst(items: seq<string>, a: Kind, b: Kind) {
    exists i :: 0 <= i < |items| && Spells(items[i], a) && forall j :: 0 <= j <= i ==> !Spells(items[j], b)
  }

  ghost predicate Recognised(item: string) {
    exists k :: Spells(item, k)
  }

  ghost predicate AllSpelled(items: seq<string>) {
    forall i :: 0 <= i < |items| ==> Recognised(items[i])
  }

  ghost function DefaultPlace(k: Kind): nat {
    match k
    case SiteKind => 0
    case CustomKind => 1
    case CountryKind => 2
  }

  lemma MentionedOneMore(items: seq<string>, item: string)
    ensures forall k :: Mentioned(items + [item], k) <==> Mentioned(items, k) || Spells(item, k)
    ensures forall a, b :: MentionedFirst(items, a, b) ==> MentionedFirst(items + [item], a, b)
    ensures forall a, b :: Mentioned(items, a) && !Mentioned(items, b) ==> MentionedFirst(items + [item], a, b)
    ensures AllSpelled(items + [item]) <==> AllSpelled(items) && Recognised(item)
  {
    hide Spells;
    var all := items + [item];
    assert all[|items|] == item && forall i :: 0 <= i < |items| ==> all[i] == items[i];
  }

  /** The kinds mentioned, in the order of first mention. */
  lemma {:induction false} KindsMean(items: seq<string>)
    ensures Kinds(items).Some? <==> AllSpelled(items)
    ensures Kinds(items).Some? ==>
              var ks := Kinds(items).value;
              && (forall k :: k in ks <==> Mentioned(items, k))
              && forall i, j :: 0 <= i < j < |ks| ==> MentionedFirst(items, ks[i], ks[j])
  {
    hide Spells;
    if items != [] {
      var rest, item := items[..|items| - 1], items[|items| - 1];
      assert items == rest + [item];
      KindsMean(rest);
      KindIsSpelled(item);
      MentionedOneMore(rest, item);
    }
  }

  /** What is not mentioned follows in the default order. */
  lemma {:induction false} FillAppends(kinds: seq<Kind>, n: nat) returns (more: seq<Kind>)
    requires n <= |DEFAULT_ORDER|
    ensures Fill(kinds, n) == kinds + more
    ensures forall i :: 0 <= i < |more| ==> more[i] !in kinds && DefaultPlace(more[i]) < n
    ensures forall i, j :: 0 <= i < j < |more| ==> DefaultPlace(more[i]) < DefaultPlace(more[j])
  {
    more := [];
    if n > 0 {
      more := FillAppends(kinds, n - 1);
      if DEFAULT_ORDER[n - 1] !in kinds {
        more := more + [DEFAULT_ORDER[n - 1]];
      }
    }
  }

  lemma MentionedFirstOf(items: seq<string>, a: Kind, b: Kind)
    requires Mentioned(items, a) && !Mentioned(items, b)
    ensures MentionedFirst(items, a, b)
  {
  }

  /** The kinds are read in the order of first mention, then those not mentioned by default; an item that
      spells no kind makes the order the default one. */
  lemma {:induction false} OrderMeans(items: seq<string>)
    ensures !AllSpelled(items) ==> EffectiveOrder(items) == [SiteKind, CustomKind, CountryKind]
    ensures AllSpelled(items) ==>
              var order := EffectiveOrder(items);
              forall i, j :: 0 <= i < j < |order| ==>
                || MentionedFirst(items, order[i], order[j])
                || (!Mentioned(items, order[i]) && !Mentioned(items, order[j]) && DefaultPlace(order[i]) < DefaultPlace(order[j]))
  {
    hide Spells;
    KindsMean(items);
    if items != [] && AllSpelled(items) {
      var ks := Kinds(items).value;
      var more := FillAppends(ks, |DEFAULT_ORDER|);
      var order := EffectiveOrder(items);
      forall k | |ks| <= k < |order|
        ensures !Mentioned(items, order[k]) && order[k] == more[k - |ks|]
      {
      }
      forall i, j | 0 <= i < |ks| <= j < |order|
        ensures MentionedFirst(items, order[i], order[j])
      {
        MentionedFirstOf(items, order[i], order[j]);
      }
    }
  }
}
