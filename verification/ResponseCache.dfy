/** The response cache: a map of entries and a recency list that point at each other. Its contents are
    those of the sequence in `LruModel`: each method of the cache does to map and list together what a
    function there does to the sequence. */
module ResponseCache {
  import opened Common
  import opened LruModel
  import opened RecencyList

  datatype CacheEntry = CacheEntry(response: Response, expiresAt: real, lruElem: Element)

  type Entries = map<string, CacheEntry>

  function ItemOf(key: string, e: CacheEntry): Item {
    Item(key, e.response, e.expiresAt)
  }

  predicate ElementLinked(e: Element, entries: Entries) {
    e.key in entries && entries[e.key].lruElem == e
  }

  /** Map and list hold the same keys, none twice: there are as many entries as elements, and each
      element's key leads back to that element. */
  ghost predicate Linked(elems: seq<Element>, entries: Entries) {
    && (forall i, j :: 0 <= i < j < |elems| ==> elems[i] != elems[j])
    && (forall i :: 0 <= i < |elems| ==> ElementLinked(elems[i], entries))
    && |entries| == |elems|
  }

  /** The cache as a sequence, most recently used first. */
  ghost function ViewOf(elems: seq<Element>, entries: Entries): seq<Item>
    requires Linked(elems, entries)
  {
    seq(|elems|, i requires 0 <= i < |elems| =>
      assert ElementLinked(elems[i], entries);
      ItemOf(elems[i].key, entries[elems[i].key]))
  }

  ghost function KeysOf(elems: seq<Element>): set<string> {
    set i | 0 <= i < |elems| :: elems[i].key
  }

  lemma {:induction false} AsManyKeys(elems: seq<Element>)
    requires forall i, j :: 0 <= i < j < |elems| ==> elems[i].key != elems[j].key
    ensures |KeysOf(elems)| == |elems|
  {
    if elems != [] {
      var t, x := elems[..|elems| - 1], elems[|elems| - 1];
      AsManyKeys(t);
      assert KeysOf(elems) == KeysOf(t) + {x.key};
      assert x.key !in KeysOf(t);
    }
  }

  /** Map keys and list keys agree. */
  lemma SameKeys(elems: seq<Element>, entries: Entries)
    requires Linked(elems, entries)
    ensures KeysOf(elems) == entries.Keys
  {
    forall i, j | 0 <= i < j < |elems|
      ensures elems[i].key != elems[j].key
    {
      assert ElementLinked(elems[i], entries) && ElementLinked(elems[j], entries);
    }
    AsManyKeys(elems);
    forall k | k in KeysOf(elems)
      ensures k in entries.Keys
    {
      var i :| 0 <= i < |elems| && elems[i].key == k;
      assert ElementLinked(elems[i], entries);
    }
    SameSizeSubset(KeysOf(elems), entries.Keys);
  }

  lemma SameSizeSubset(a: set<string>, b: set<string>)
    requires a <= b && |a| == |b|
    ensures a == b
  {
    assert a + (b - a) == b;
    assert |b - a| == 0;
  }

  ghost function PositionOf(elems: seq<Element>, entries: Entries, key: string): (i: nat)
    requires Linked(elems, entries) && key in entries
    ensures i < |elems| && elems[i] == entries[key].lruElem && elems[i].key == key
  {
    SameKeys(elems, entries);
    assert key in KeysOf(elems);
    var i: nat :| i < |elems| && elems[i].key == key;
    assert ElementLinked(elems[i], entries);
    i
  }

  lemma ViewIsDistinct(elems: seq<Element>, entries: Entries)
    requires Linked(elems, entries)
    ensures DistinctKeys(ViewOf(elems, entries))
  {
    forall i, j | 0 <= i < j < |elems|
      ensures elems[i].key != elems[j].key
    {
      assert ElementLinked(elems[i], entries) && ElementLinked(elems[j], entries);
    }
  }

  lemma FindInView(elems: seq<Element>, entries: Entries, key: string)
    requires Linked(elems, entries)
    ensures Find(ViewOf(elems, entries), key) == if key in entries then Some(ItemOf(key, entries[key])) else None
  {
    var s := ViewOf(elems, entries);
    ViewIsDistinct(elems, entries);
    FindFacts(s, key);
    if key in entries {
      var i := PositionOf(elems, entries, key);
      assert s[i].key == key;
    }
  }

  lemma {:induction false} WithoutAbsent(s: seq<Item>, key: string)
    requires forall i :: 0 <= i < |s| ==> s[i].key != key
    ensures Without(s, {key}) == s
  {
    if s != [] {
      WithoutAbsent(s[1..], key);
      assert s == [s[0]] + s[1..];
    }
  }

  lemma {:induction false} WithoutOne(s: seq<Item>, key: string, i: nat)
    requires DistinctKeys(s) && i < |s| && s[i].key == key
    ensures Without(s, {key}) == RemoveAt(s, i)
  {
    if i == 0 {
      WithoutAbsent(s[1..], key);
      assert s[1..] == s[..0] + s[1..];
    } else {
      WithoutOne(s[1..], key, i - 1);
      assert s[..i] + s[i + 1..] == [s[0]] + (s[1..][..i - 1] + s[1..][i..]);
    }
  }

  /** Taking a key out of both structures takes its item out of the view. */
  lemma DropFromBoth(elems: seq<Element>, entries: Entries, key: string)
    requires Linked(elems, entries) && key in entries
    ensures var elems' := RemoveAt(elems, PositionOf(elems, entries, key));
            Linked(elems', entries - {key})
            && ViewOf(elems', entries - {key}) == Without(ViewOf(elems, entries), {key})
  {
    var i, s := PositionOf(elems, entries, key), ViewOf(elems, entries);
    var elems', entries' := RemoveAt(elems, i), entries - {key};
    assert entries'.Keys == entries.Keys - {key};
    assert |entries'.Keys| == |entries.Keys| - 1;
    forall j | 0 <= j < |elems'|
      ensures ElementLinked(elems'[j], entries')
    {
      assert ElementLinked(elems[if j < i then j else j + 1], entries);
    }
    ViewIsDistinct(elems, entries);
    WithoutOne(s, key, i);
    assert ViewOf(elems', entries') == RemoveAt(s, i);
  }

  lemma MoveInView(elems: seq<Element>, entries: Entries, key: string)
    requires Linked(elems, entries) && key in entries
    ensures var i := PositionOf(elems, entries, key);
            var elems' := [elems[i]] + RemoveAt(elems, i);
            Linked(elems', entries)
            && ViewOf(elems', entries) == [ItemOf(key, entries[key])] + Without(ViewOf(elems, entries), {key})
  {
    var i, s := PositionOf(elems, entries, key), ViewOf(elems, entries);
    var rest := RemoveAt(elems, i);
    assert ElementLinked(elems[i], entries);
    forall j | 0 <= j < |rest|
      ensures ElementLinked(rest[j], entries) && rest[j] != elems[i]
    {
      assert ElementLinked(elems[if j < i then j else j + 1], entries);
    }
    ViewIsDistinct(elems, entries);
    WithoutOne(s, key, i);
    assert ViewOf([elems[i]] + rest, entries) == [s[i]] + RemoveAt(s, i);
  }

  lemma InsertKeepsLinks(elems: seq<Element>, entries: Entries, key: string, e: CacheEntry)
    requires Linked(elems, entries) && key !in entries && e.lruElem.key == key
    ensures Linked([e.lruElem] + elems, entries[key := e])
  {
    var entries' := entries[key := e];
    assert entries'.Keys == entries.Keys + {key};
    assert |entries'.Keys| == |entries.Keys| + 1;
    forall j | 0 <= j < |elems|
      ensures ElementLinked(elems[j], entries') && elems[j] != e.lruElem
    {
      assert ElementLinked(elems[j], entries);
    }
  }

  lemma InsertInBoth(elems: seq<Element>, entries: Entries, key: string, e: CacheEntry)
    requires Linked(elems, entries) && key !in entries && e.lruElem.key == key
    ensures Linked([e.lruElem] + elems, entries[key := e])
    ensures ViewOf([e.lruElem] + elems, entries[key := e]) == [ItemOf(key, e)] + ViewOf(elems, entries)
  {
    InsertKeepsLinks(elems, entries, key, e);
    var s, s' := ViewOf(elems, entries), ViewOf([e.lruElem] + elems, entries[key := e]);
    assert |s'| == |s| + 1;
    forall j | 0 <= j < |s|
      ensures s'[j + 1] == s[j]
    {
      assert ElementLinked(elems[j], entries);
    }
    assert s' == [ItemOf(key, e)] + s;
  }

  ghost function ExpiredEntries(entries: Entries, now: real): set<string> {
    set k | k in entries && now > entries[k].expiresAt
  }

  /** Which keys are expired can be read off the map as well as off the view. */
  lemma ExpiredInView(elems: seq<Element>, entries: Entries, now: real)
    requires Linked(elems, entries)
    ensures ExpiredKeys(ViewOf(elems, entries), now) == ExpiredEntries(entries, now)
  {
    var s := ViewOf(elems, entries);
    forall k | k in ExpiredEntries(entries, now)
      ensures k in ExpiredKeys(s, now)
    {
      var i := PositionOf(elems, entries, k);
      assert s[i] == ItemOf(k, entries[k]);
    }
    forall k | k in ExpiredKeys(s, now)
      ensures k in ExpiredEntries(entries, now)
    {
      var i :| 0 <= i < |s| && Expired(s[i], now) && s[i].key == k;
      assert ElementLinked(elems[i], entries);
    }
  }

  lemma {:induction false} WithoutTwice(s: seq<Item>, a: set<string>, b: set<string>)
    ensures Without(Without(s, a), b) == Without(s, a + b)
  {
    if s != [] {
      WithoutTwice(s[1..], a, b);
      if s[0].key !in a {
        assert Without(s, a)[1..] == Without(s[1..], a);
      } else {
        assert Without(s, a) == Without(s[1..], a);
      }
    }
  }

  lemma {:induction false} WithoutNone(s: seq<Item>)
    ensures Without(s, {}) == s
  {
    if s != [] {
      WithoutNone(s[1..]);
    }
  }

  lemma MoveAcross(a: set<string>, b: set<string>, x: string)
    requires a !! b && x in b
    ensures (a + {x}) + (b - {x}) == a + b && (a + {x}) !! (b - {x}) && |a + {x}| == |a| + 1
  {
  }

  class Cache {
    const policy: Policy
    var entries: Entries
    const lruList: List

    ghost predicate Valid()
      reads this, lruList, lruList.Repr
    {
      && policy.maxEntries > 0
      && lruList.Valid()
      && Linked(lruList.elems, entries)
      && |entries| <= policy.maxEntries
    }

    ghost function View(): seq<Item>
      requires Linked(lruList.elems, entries)
      reads this, lruList
    {
      ViewOf(lruList.elems, entries)
    }

    constructor (policy: Policy)
      requires policy.maxEntries > 0
      ensures Valid() && this.policy == policy && View() == [] && fresh(lruList)
    {
      this.policy := policy;
      entries := map[];
      lruList := new List();
    }

    /** Removes one entry from both structures. */
    method Drop(key: string)
      requires Valid() && key in entries
      modifies this, lruList, lruList.Repr
      ensures Valid() && View() == Without(old(View()), {key})
      ensures entries == old(entries) - {key}
      ensures lruList.Repr == old(lruList.Repr)
    {
      ghost var i := PositionOf(lruList.elems, entries, key);
      DropFromBoth(lruList.elems, entries, key);
      assert (entries - {key}).Keys <= entries.Keys;
      FewerKeys(entries, key);
      lruList.Remove(entries[key].lruElem, i);
      entries := entries - {key};
    }

    method Get(key: string, now: real) returns (result: Option<CacheEntry>)
      requires Valid()
      modifies this, lruList, lruList.Repr
      ensures Valid() && View() == GetState(old(View()), key, now)
      ensures GetResult(old(View()), key, now)
              == if result.Some? then Some(ItemOf(key, result.value)) else None
    {
      FindInView(lruList.elems, entries, key);
      if key == "" || key !in entries {
        return None;
      }
      var entry := entries[key];
      if now > entry.expiresAt {
        Drop(key);
        return None;
      }
      ghost var i := PositionOf(lruList.elems, entries, key);
      MoveInView(lruList.elems, entries, key);
      lruList.MoveToFront(entry.lruElem, i);
      return Some(entry);
    }

    /** `victims` are the expired keys this call happened to meet in the map's iteration order. */
    method Set(key: string, response: Response, now: real) returns (ghost victims: set<string>)
      requires Valid()
      modifies this, lruList, lruList.Repr
      ensures Valid() && View() == SetState(policy, old(View()), key, response, now, victims)
      ensures Sample(Without(old(View()), {key}), now, victims)
      ensures fresh(lruList.Repr - old(lruList.Repr))
    {
      hide Without, ExpiredKeys;
      if key == "" || |response.body| > policy.maxBodyBytes {
        victims := ExpiredKeys(Without(View(), {key}), now);
        return;
      }
      victims := MakeRoom(key, now);
      Insert(key, response, now + policy.ttl);
    }

    /** Drops the key's old entry, a sample of the expired ones and then the least recently used. */
    method MakeRoom(key: string, now: real) returns (ghost victims: set<string>)
      requires Valid()
      modifies this, lruList, lruList.Repr
      ensures Valid() && key !in entries && |entries| < policy.maxEntries
      ensures var kept := Without(Without(old(View()), {key}), victims);
              View() == kept[..Min(|kept|, policy.maxEntries - 1)]
      ensures Sample(Without(old(View()), {key}), now, victims)
      ensures lruList.Repr == old(lruList.Repr)
    {
      DropIfPresent(key);
      victims := EvictExpired(now);
      EvictLeastRecent();
    }

    method DropIfPresent(key: string)
      requires Valid()
      modifies this, lruList, lruList.Repr
      ensures Valid() && View() == Without(old(View()), {key}) && key !in entries
      ensures lruList.Repr == old(lruList.Repr)
    {
      FindInView(lruList.elems, entries, key);
      if key in entries {
        Drop(key);
      } else {
        FindFacts(View(), key);
        WithoutAbsent(View(), key);
      }
    }

    method Insert(key: string, response: Response, expiresAt: real)
      requires Valid() && key !in entries && |entries| < policy.maxEntries
      modifies this, lruList, lruList.Repr
      ensures Valid() && View() == [Item(key, response, expiresAt)] + old(View())
      ensures fresh(lruList.Repr - old(lruList.Repr))
    {
      ghost var elems := lruList.elems;
      var elem := lruList.PushFront(key);
      var entry := CacheEntry(response, expiresAt, elem);
      InsertInBoth(elems, entries, key, entry);
      entries := entries[key := entry];
    }

    method DropIfExpired(key: string, now: real) returns (dropped: bool)
      requires Valid() && key in entries
      modifies this, lruList, lruList.Repr
      ensures Valid() && (dropped <==> key in old(ExpiredEntries(entries, now)))
      ensures View() == if dropped then Without(old(View()), {key}) else old(View())
      ensures entries.Keys == if dropped then old(entries.Keys) - {key} else old(entries.Keys)
      ensures var was := old(ExpiredEntries(entries, now));
              ExpiredEntries(entries, now) == if dropped then was - {key} else was
      ensures lruList.Repr == old(lruList.Repr)
    {
      dropped := now > entries[key].expiresAt;
      if dropped {
        Drop(key);
      }
    }

    method EvictExpired(now: real) returns (ghost victims: set<string>)
      requires Valid()
      modifies this, lruList, lruList.Repr
      ensures Valid() && View() == Without(old(View()), victims) && Sample(old(View()), now, victims)
      ensures entries.Keys <= old(entries.Keys)
      ensures lruList.Repr == old(lruList.Repr)
    {
      var rest, evicted := entries.Keys, 0;
      ghost var view, live := View(), ExpiredEntries(entries, now);
      ghost var all := live;
      ExpiredInView(lruList.elems, entries, now);
      victims := {};
      WithoutNone(view);
      while rest != {} && evicted < SAMPLE_LIMIT
        invariant Valid() && View() == Without(view, victims) && lruList.Repr == old(lruList.Repr)
        invariant live == ExpiredEntries(entries, now)
        invariant live <= rest <= entries.Keys <= old(entries.Keys)
        invariant victims + live == all && victims !! live
        invariant evicted == |victims| <= SAMPLE_LIMIT
        decreases rest
      {
        var key :| key in rest;
        rest := rest - {key};
        WithoutTwice(view, victims, {key});
        var dropped := DropIfExpired(key, now);
        if dropped {
          MoveAcross(victims, live, key);
          victims := victims + {key};
          live := live - {key};
          evicted := evicted + 1;
        }
      }
    }

    method EvictLeastRecent()
      requires Valid()
      modifies this, lruList, lruList.Repr
      ensures Valid() && |entries| < policy.maxEntries
      ensures View() == old(View())[..Min(|old(View())|, policy.maxEntries - 1)]
      ensures entries.Keys <= old(entries.Keys)
      ensures lruList.Repr == old(lruList.Repr)
    {
      while |entries| >= policy.maxEntries
        invariant Valid() && |View()| <= |old(View())| && View() == old(View())[..|View()|]
        invariant |View()| >= Min(|old(View())|, policy.maxEntries - 1)
        invariant entries.Keys <= old(entries.Keys)
        invariant lruList.Repr == old(lruList.Repr)
        decreases |entries|
      {
        var back := lruList.back;
        assert ElementLinked(back, entries);
        ViewIsDistinct(lruList.elems, entries);
        WithoutOne(View(), back.key, |View()| - 1);
        Drop(back.key);
      }
    }

    method PurgeAll() returns (count: nat)
      requires Valid()
      modifies this, lruList
      ensures Valid() && View() == [] && count == |old(View())|
    {
      count := |entries|;
      if count == 0 {
        return 0;
      }
      entries := map[];
      lruList.Init();
    }
  }

  lemma FewerKeys(entries: Entries, key: string)
    requires key in entries
    ensures |entries - {key}| == |entries| - 1
  {
    assert (entries - {key}).Keys == entries.Keys - {key};
  }
}
