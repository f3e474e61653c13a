/** What the store's operations keep.

    Unique domains and enabled listen ports on every node, in every run, and exactly when a single
    operation could break it. */
module SiteUniqueness {
  import opened Common
  import opened Text
  import opened SiteStore

  lemma CompatibleIsSymmetric(a: Site, b: Site)
    ensures Compatible(a, b) <==> Compatible(b, a)
  {
    if SharesDomain(a, b) {
      var d :| d in AllDomains(a) && d in AllDomains(b);
      assert SharesDomain(b, a);
    }
    if SharesDomain(b, a) {
      var d :| d in AllDomains(b) && d in AllDomains(a);
      assert SharesDomain(a, b);
    }
  }

  ghost predicate CompatibleWithOthers(sites: seq<Site>, item: Site, exceptID: string) {
    forall k :: 0 <= k < |sites| && sites[k].id != exceptID ==> Compatible(sites[k], item)
  }

  /** The two checks together are compatibility with every site of another ID. */
  lemma ChecksMean(sites: seq<Site>, item: Site, exceptID: string)
    ensures DomainsFree(sites, item, exceptID) && PortFree(sites, item, exceptID) <==>
            CompatibleWithOthers(sites, item, exceptID)
  {
    forall k | 0 <= k < |sites|
      ensures Compatible(sites[k], item) <==> Compatible(item, sites[k])
    {
      CompatibleIsSymmetric(sites[k], item);
    }
    if CompatibleWithOthers(sites, item, exceptID) {
      forall s | s in sites && s.id != exceptID
        ensures Compatible(item, s)
      {
        var k :| 0 <= k < |sites| && sites[k] == s;
      }
    } else {
      var k :| 0 <= k < |sites| && sites[k].id != exceptID && !Compatible(sites[k], item);
      assert sites[k] in sites && !Compatible(item, sites[k]);
    }
  }

  lemma {:induction false} UniqueWithOneMore(sites: seq<Site>, item: Site)
    requires Unique(sites)
    ensures Unique(sites + [item]) <==> forall k :: 0 <= k < |sites| ==> Compatible(sites[k], item)
  {
    var all := sites + [item];
    assert all[|sites|] == item;
    forall k | 0 <= k < |sites|
      ensures all[k] == sites[k]
    {
    }
    if Unique(all) {
      forall k | 0 <= k < |sites|
        ensures Compatible(sites[k], item)
      {
        assert Compatible(all[k], all[|sites|]);
      }
    }
  }

  lemma UniqueWithOneChanged(sites: seq<Site>, i: nat, item: Site)
    requires Unique(sites) && i < |sites|
    ensures Unique(sites[i := item]) <==> forall k :: 0 <= k < |sites| && k != i ==> Compatible(sites[k], item)
  {
    var all := sites[i := item];
    if Unique(all) {
      forall k | 0 <= k < |sites| && k != i
        ensures Compatible(sites[k], item)
      {
        assert all[i] == item && all[k] == sites[k];
        CompatibleIsSymmetric(item, sites[k]);
        assert if k < i then Compatible(all[k], all[i]) else Compatible(all[i], all[k]);
      }
    } else {
      var a, b :| 0 <= a < b < |all| && !Compatible(all[a], all[b]);
      CompatibleIsSymmetric(all[a], all[b]);
      assert a == i || b == i;
      assert !Compatible(sites[if a == i then b else a], item);
    }
  }

  // ---------- each operation ----------

  /** Something another site could collide with. */
  predicate Claims(s: Site) {
    AllDomains(s) != [] || (s.enabled && s.port > 0)
  }

  ghost predicate AsStored(sites: seq<Site>) {
    forall i :: 0 <= i < |sites| ==> NormalizeSite(sites[i]) == sites[i]
  }

  lemma CollidesWithItself(s: Site, t: Site)
    requires t.node == s.node && t.domain == s.domain && t.extras == s.extras
    requires t.enabled == s.enabled && t.port == s.port
    ensures Compatible(s, t) <==> !Claims(s)
  {
    if AllDomains(s) != [] {
      assert AllDomains(s)[0] in AllDomains(s) && AllDomains(t) == AllDomains(s);
    }
  }

  lemma CompatibleWithCopy(a: Site, s: Site, t: Site)
    requires t.node == s.node && t.domain == s.domain && t.extras == s.extras
    requires t.enabled == s.enabled && t.port == s.port
    ensures Compatible(a, s) <==> Compatible(a, t)
  {
    assert AllDomains(s) == AllDomains(t);
  }

  ghost predicate CreateKeeps(sites: seq<Site>) {
    forall item, valid :: Unique(After(sites, Create(item, valid)))
  }

  /** Creating keeps uniqueness whatever is created exactly when no site without an ID claims anything:
      the check passes over sites whose ID is empty. */
  lemma {:induction false} CreateKeepsExactly(sites: seq<Site>)
    requires Unique(sites) && AsStored(sites)
    ensures CreateKeeps(sites) <==> forall k :: 0 <= k < |sites| && sites[k].id == "" ==> !Claims(sites[k])
  {
    if k :| 0 <= k < |sites| && sites[k].id == "" && Claims(sites[k]) {
      CreateBreaks(sites, k);
    } else {
      forall item, valid
        ensures Unique(After(sites, Create(item, valid)))
      {
        CreateStep(sites, item, valid);
      }
    }
  }

  lemma CreateBreaks(sites: seq<Site>, k: nat)
    requires Unique(sites) && AsStored(sites)
    requires k < |sites| && sites[k].id == "" && Claims(sites[k])
    ensures !Unique(After(sites, Create(sites[k], true)))
  {
    var item := sites[k];
    OthersCompatible(sites, k, item, "");
    ChecksMean(sites, item, "");
    CollidesWithItself(sites[k], item);
    UniqueWithOneMore(sites, item);
  }

  lemma OthersCompatible(sites: seq<Site>, k: nat, item: Site, exceptID: string)
    requires Unique(sites) && k < |sites| && sites[k].id == exceptID && item == sites[k]
    ensures CompatibleWithOthers(sites, item, exceptID)
  {
    forall m | 0 <= m < |sites| && sites[m].id != exceptID
      ensures Compatible(sites[m], item)
    {
      CompatibleIsSymmetric(sites[m], item);
      assert if m < k then Compatible(sites[m], sites[k]) else Compatible(sites[k], sites[m]);
    }
  }

  lemma NothingClaimed(a: Site, s: Site)
    requires !Claims(a)
    ensures Compatible(a, s)
  {
  }

  lemma CreateStep(sites: seq<Site>, item: Site, valid: bool)
    requires Unique(sites)
    requires forall k :: 0 <= k < |sites| && sites[k].id == "" ==> !Claims(sites[k])
    ensures Unique(After(sites, Create(item, valid)))
  {
    var stored := NormalizeSite(item);
    if Refusal(sites, Create(item, valid)).None? {
      ChecksMean(sites, stored, "");
      forall k | 0 <= k < |sites|
        ensures Compatible(sites[k], stored)
      {
        if sites[k].id == "" {
          NothingClaimed(sites[k], stored);
        }
      }
      UniqueWithOneMore(sites, stored);
    }
  }

  ghost predicate UpdateKeeps(sites: seq<Site>, id: string) {
    forall patch, valid :: Unique(After(sites, Update(id, patch, valid)))
  }

  /** Updating changes the first site with the ID and checks against sites with another: it keeps
      uniqueness whatever the patch exactly when no later site with the same ID claims anything. */
  lemma {:induction false} UpdateKeepsExactly(sites: seq<Site>, id: string)
    requires Unique(sites) && AsStored(sites)
    ensures UpdateKeeps(sites, id) <==>
            forall k :: FirstWith(sites, id) < k < |sites| && sites[k].id == id ==> !Claims(sites[k])
  {
    if k :| FirstWith(sites, id) < k < |sites| && sites[k].id == id && Claims(sites[k]) {
      UpdateBreaks(sites, id, k);
    } else {
      forall patch, valid
        ensures Unique(After(sites, Update(id, patch, valid)))
      {
        UpdateStep(sites, id, patch, valid);
      }
    }
  }

  lemma {:induction false} UpdateBreaks(sites: seq<Site>, id: string, k: nat)
    requires Unique(sites) && AsStored(sites)
    requires FirstWith(sites, id) < k < |sites| && sites[k].id == id && Claims(sites[k])
    ensures !Unique(After(sites, Update(id, sites[k], true)))
  {
    var i, patch := FirstWith(sites, id), sites[k];
    assert NormalizeSite(patch) == patch;
    hide AllDomains, Claims, NormalizeSite, Compatible, DomainsFree, PortFree;
    OthersCompatible(sites, k, patch, id);
    ChecksMean(sites, patch, id);
    var item := Patched(sites[i], patch);
    CollidesWithItself(sites[k], item);
    assert !Compatible(sites[k], item);
    assert After(sites, Update(id, patch, true)) == sites[i := item];
    hide Unique;
    UniqueWithOneChanged(sites, i, item);
  }

  lemma {:induction false} UpdateStep(sites: seq<Site>, id: string, patch: Site, valid: bool)
    requires Unique(sites)
    requires forall k :: FirstWith(sites, id) < k < |sites| && sites[k].id == id ==> !Claims(sites[k])
    ensures Unique(After(sites, Update(id, patch, valid)))
  {
    if Refusal(sites, Update(id, patch, valid)).None? {
      var i, stored := FirstWith(sites, id), NormalizeSite(patch);
      var item := Patched(sites[i], stored);
      ChecksMean(sites, stored, id);
      forall k | 0 <= k < |sites| && k != i
        ensures Compatible(sites[k], item)
      {
        if sites[k].id == id {
          NothingClaimed(sites[k], item);
        } else {
          CompatibleWithCopy(sites[k], stored, item);
        }
      }
      UniqueWithOneChanged(sites, i, item);
    }
  }

  /** Enabling keeps uniqueness exactly when no other site with the same ID holds the port already. */
  lemma {:induction false} EnableKeepsExactly(sites: seq<Site>, id: string)
    requires Unique(sites) && Refusal(sites, SetEnabled(id, true)).None?
    ensures var i := FirstWith(sites, id);
            Unique(After(sites, SetEnabled(id, true))) <==>
            forall k :: i < k < |sites| && sites[k].id == id && sites[k].node == sites[i].node ==>
              !SharesPort(sites[k], sites[i].(enabled := true))
  {
    var i := FirstWith(sites, id);
    var item := sites[i].(enabled := true);
    forall k | 0 <= k < |sites| && k != i
      ensures Compatible(sites[k], item) <==> sites[k].node == item.node ==> !SharesPort(sites[k], item)
    {
      EnabledDomains(sites, i, k);
    }
    UniqueWithOneChanged(sites, i, item);
    forall k | 0 <= k < |sites| && sites[k].id != id && sites[k].node == item.node
      ensures !SharesPort(sites[k], item)
    {
      assert sites[k] in sites;
    }
  }

  lemma EnabledDomains(sites: seq<Site>, i: nat, k: nat)
    requires Unique(sites) && i < |sites| && k < |sites| && k != i
    ensures sites[k].node == sites[i].node ==> !SharesDomain(sites[k], sites[i].(enabled := true))
  {
    CompatibleIsSymmetric(sites[k], sites[i]);
    assert if k < i then Compatible(sites[k], sites[i]) else Compatible(sites[i], sites[k]);
    assert AllDomains(sites[i].(enabled := true)) == AllDomains(sites[i]);
  }

  lemma {:induction false} DisableKeeps(sites: seq<Site>, id: string)
    requires Unique(sites)
    ensures Unique(After(sites, SetEnabled(id, false)))
  {
    var i := FirstWith(sites, id);
    if i < |sites| {
      var item := sites[i].(enabled := false);
      forall k | 0 <= k < |sites| && k != i
        ensures Compatible(sites[k], item)
      {
        CompatibleIsSymmetric(sites[k], sites[i]);
        assert if k < i then Compatible(sites[k], sites[i]) else Compatible(sites[i], sites[k]);
        assert AllDomains(item) == AllDomains(sites[i]);
      }
      UniqueWithOneChanged(sites, i, item);
    }
  }

  /** Deleting always keeps uniqueness. */
  lemma {:induction false} DeleteKeeps(sites: seq<Site>, id: string)
    requires Unique(sites)
    ensures Unique(Without(sites, id))
  {
    if sites != [] {
      var rest, last := sites[..|sites| - 1], sites[|sites| - 1];
      DeleteKeeps(rest, id);
      WithoutIsFilter(rest, id);
      if last.id != id {
        forall k | 0 <= k < |Without(rest, id)|
          ensures Compatible(Without(rest, id)[k], last)
        {
          assert Without(rest, id)[k] in rest;
          var m :| 0 <= m < |rest| && rest[m] == Without(rest, id)[k];
          assert Compatible(sites[m], sites[|sites| - 1]);
        }
        UniqueWithOneMore(Without(rest, id), last);
      }
    }
  }

  // ---------- whole runs ----------

  ghost predicate Identified(sites: seq<Site>) {
    && (forall i :: 0 <= i < |sites| ==> sites[i].id != "" && NormalizeID(sites[i].node) == sites[i].node)
    && (forall i, j :: 0 <= i < j < |sites| ==> sites[i].id != sites[j].id)
  }

  /** What callers see to: created sites bring an ID of their own. */
  ghost predicate BringsID(sites: seq<Site>, op: Op) {
    op.Create? ==> op.item.id != "" && FirstWith(sites, op.item.id) == |sites|
  }

  lemma {:induction false} StepIdentified(sites: seq<Site>, op: Op)
    requires Identified(sites) && BringsID(sites, op)
    ensures Identified(After(sites, op))
  {
    match op
    case Create(item, valid) =>
      NormalizeIDTwice(item.node);
      OneMoreIdentified(sites, NormalizeSite(item));
    case Update(id, patch, valid) =>
      NormalizeIDTwice(patch.node);
      var i := FirstWith(sites, id);
      if i < |sites| {
        OneChangedIdentified(sites, i, Patched(sites[i], NormalizeSite(patch)));
      }
    case SetEnabled(id, on) =>
      var i := FirstWith(sites, id);
      if i < |sites| {
        OneChangedIdentified(sites, i, sites[i].(enabled := on));
      }
    case Delete(id) =>
      WithoutIdentified(sites, id);
  }

  lemma OneChangedIdentified(sites: seq<Site>, i: nat, item: Site)
    requires Identified(sites) && i < |sites| && item.id == sites[i].id && NormalizeID(item.node) == item.node
    ensures Identified(sites[i := item])
  {
  }

  lemma OneMoreIdentified(sites: seq<Site>, item: Site)
    requires Identified(sites) && item.id != "" && NormalizeID(item.node) == item.node
    requires forall s :: s in sites ==> s.id != item.id
    ensures Identified(sites + [item])
  {
  }

  lemma {:induction false} WithoutIdentified(sites: seq<Site>, id: string)
    requires Identified(sites)
    ensures Identified(Without(sites, id))
  {
    if sites != [] {
      var rest, last := sites[..|sites| - 1], sites[|sites| - 1];
      WithoutIdentified(rest, id);
      WithoutIsFilter(rest, id);
      if last.id != id {
        OneMoreIdentified(Without(rest, id), last);
      }
    }
  }

  lemma {:induction false} StepUnique(sites: seq<Site>, op: Op)
    requires Unique(sites) && Identified(sites)
    ensures Unique(After(sites, op))
  {
    match op
    case Create(item, valid) =>
      CreateStep(sites, item, valid);
    case Update(id, patch, valid) =>
      UpdateStep(sites, id, patch, valid);
    case SetEnabled(id, on) =>
      if !on {
        DisableKeeps(sites, id);
      } else if Refusal(sites, op).None? {
        EnableKeepsExactly(sites, id);
      }
    case Delete(id) =>
      DeleteKeeps(sites, id);
  }

  function Run(ops: seq<Op>): seq<Site> {
    if ops == [] then [] else After(Run(ops[..|ops| - 1]), ops[|ops| - 1])
  }

  ghost predicate AllBringIDs(ops: seq<Op>) {
    forall n :: 0 <= n < |ops| ==> BringsID(Run(ops[..n]), ops[n])
  }

  /** In every run from an empty store, whatever is accepted, refused or cannot be saved. */
  lemma {:induction false} EveryRunKeepsUniqueness(ops: seq<Op>)
    requires AllBringIDs(ops)
    ensures Unique(Run(ops)) && Identified(Run(ops))
  {
    if ops != [] {
      var n := |ops| - 1;
      assert AllBringIDs(ops[..n]) by {
        forall m | 0 <= m < n
          ensures BringsID(Run(ops[..n][..m]), ops[..n][m])
        {
          assert ops[..n][..m] == ops[..m];
        }
      }
      EveryRunKeepsUniqueness(ops[..n]);
      StepUnique(Run(ops[..n]), ops[n]);
      StepIdentified(Run(ops[..n]), ops[n]);
    }
  }

  // ---------- loading again ----------

  /** A store that keeps uniqueness is accepted on loading exactly when no two nodes share an enabled port. */
  lemma ReloadsExactly(sites: seq<Site>)
    requires Unique(sites)
    ensures PortsUniqueEverywhere(sites) <==>
            forall i, j :: 0 <= i < j < |sites| && sites[i].node != sites[j].node ==> !SharesPort(sites[i], sites[j])
  {
    forall i, j | 0 <= i < j < |sites| && sites[i].node == sites[j].node
      ensures !SharesPort(sites[i], sites[j])
    {
      assert Compatible(sites[i], sites[j]);
    }
  }

  /** Two nodes may share a port, so not every accepted store loads again. */
  lemma {:induction false} AcceptedButNotReloadable(a: Site, b: Site)
    requires a.id != "" && b.id != "" && a.id != b.id
    requires NormalizeID(a.node) != NormalizeID(b.node) && SharesPort(a, b)
    ensures var ops := [Create(a, true), Create(b, true)];
            && AllBringIDs(ops)
            && Run(ops) == [NormalizeSite(a), NormalizeSite(b)]
            && !PortsUniqueEverywhere(Run(ops))
  {
    var ops, one := [Create(a, true), Create(b, true)], [Create(a, true)];
    assert one[..0] == [] && ops[..0] == [] && ops[..1] == one;
    assert Run([]) == [];
    FirstCreated(a);
    NodesApart(NormalizeSite(a), NormalizeSite(b));
    assert Run(ops) == [NormalizeSite(a)] + [NormalizeSite(b)];
    assert SharesPort(Run(ops)[0], Run(ops)[1]);
  }

  lemma FirstCreated(a: Site)
    ensures Run([Create(a, true)]) == [NormalizeSite(a)]
  {
    var one, none: seq<Site> := [Create(a, true)], [];
    assert one[..0] == [] && Run([]) == none;
    assert none + [NormalizeSite(a)] == [NormalizeSite(a)];
  }

  lemma NodesApart(a: Site, b: Site)
    requires a.node != b.node
    ensures Rejection([a], b, true, "").None?
  {
  }
}
