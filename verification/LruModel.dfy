/** The response cache as a plain sequence, most recently used first, and what that sequence keeps
    and loses over whole runs. */
module LruModel {
  import opened Common

  datatype Response = Response(status: int, header: map<string, seq<string>>, body: seq<bv8>)

  datatype Item = Item(key: string, response: Response, expiresAt: real)

  datatype Policy = Policy(ttl: real, maxEntries: int, maxBodyBytes: int)

  /** How many expired entries one Set removes at most. */
  const SAMPLE_LIMIT := 10

  // ---------- sequences of items ----------

  predicate Has(s: seq<Item>, key: string) {
    exists i :: 0 <= i < |s| && s[i].key == key
  }

  ghost predicate DistinctKeys(s: seq<Item>) {
    forall i, j :: 0 <= i < j < |s| ==> s[i].key != s[j].key
  }

  ghost function Keys(s: seq<Item>): set<string> {
    set i | 0 <= i < |s| :: s[i].key
  }

  function Find(s: seq<Item>, key: string): Option<Item> {
    if s == [] then None else if s[0].key == key then Some(s[0]) else Find(s[1..], key)
  }

  function Without(s: seq<Item>, keys: set<string>): seq<Item> {
    if s == [] then []
    else (if s[0].key in keys then [] else [s[0]]) + Without(s[1..], keys)
  }

  predicate Expired(i: Item, now: real) {
    now > i.expiresAt
  }

  ghost function ExpiredKeys(s: seq<Item>, now: real): set<string> {
    set i | 0 <= i < |s| && Expired(s[i], now) :: s[i].key
  }

  /** Any choice the map's iteration order may make: all expired keys, or ten of them. */
  ghost predicate Sample(s: seq<Item>, now: real, victims: set<string>) {
    && victims <= ExpiredKeys(s, now)
    && (victims == ExpiredKeys(s, now) || |victims| == SAMPLE_LIMIT)
  }

  // ---------- the operations ----------

  function GetState(s: seq<Item>, key: string, now: real): seq<Item> {
    if key == "" || Find(s, key).None? then s
    else
      var item := Find(s, key).value;
      if now > item.expiresAt then Without(s, {key}) else [item] + Without(s, {key})
  }

  function GetResult(s: seq<Item>, key: string, now: real): Option<Item> {
    if key == "" || Find(s, key).None? || now > Find(s, key).value.expiresAt then None else Find(s, key)
  }

  /** A response that is too large leaves the cache as it was, an older entry for the key included. */
  function SetState(p: Policy, s: seq<Item>, key: string, response: Response, now: real, victims: set<string>): seq<Item> {
    if key == "" || |response.body| > p.maxBodyBytes then s
    else
      var kept := Without(Without(s, {key}), victims);
      [Item(key, response, now + p.ttl)] + kept[..Min(|kept|, Max(0, p.maxEntries - 1))]
  }

  datatype Op =
    | Get(key: string, now: real)
    | Set(key: string, response: Response, now: real, victims: set<string>)
    | Purge

  function Apply(p: Policy, s: seq<Item>, op: Op): seq<Item> {
    match op
    case Get(key, now) => GetState(s, key, now)
    case Set(key, response, now, victims) => SetState(p, s, key, response, now, victims)
    case Purge => []
  }

  /** A run: the operations, and the cache before each of them and after the last. */
  datatype Run = Run(ops: seq<Op>, states: seq<seq<Item>>)

  /** Operation n does what it does, and its sample is a legal choice. */
  ghost predicate StepAt(p: Policy, r: Run, n: nat)
    requires n < |r.ops| && |r.states| == |r.ops| + 1
  {
    var s, op := r.states[n], r.ops[n];
    && r.states[n + 1] == Apply(p, s, op)
    && (op.Set? ==> Sample(Without(s, {op.key}), op.now, op.victims))
  }

  ghost predicate Valid(p: Policy, r: Run) {
    && p.maxEntries > 0
    && |r.states| == |r.ops| + 1 && r.states[0] == []
    && forall n: nat {:trigger StepAt(p, r, n)} :: n < |r.ops| ==> StepAt(p, r, n)
  }

  // ---------- facts about removal ----------

  lemma {:induction false} WithoutMembers(s: seq<Item>, keys: set<string>)
    ensures |Without(s, keys)| <= |s|
    ensures forall x :: x in Without(s, keys) <==> x in s && x.key !in keys
  {
    if s != [] {
      WithoutMembers(s[1..], keys);
      assert s == [s[0]] + s[1..];
    }
  }

  lemma {:induction false} WithoutDistinct(s: seq<Item>, keys: set<string>)
    requires DistinctKeys(s)
    ensures DistinctKeys(Without(s, keys))
  {
    if s != [] {
      var t := Without(s[1..], keys);
      WithoutDistinct(s[1..], keys);
      WithoutMembers(s[1..], keys);
      forall i | 0 <= i < |t|
        ensures t[i].key != s[0].key
      {
        assert t[i] in s[1..];
      }
    }
  }

  lemma WithoutFacts(s: seq<Item>, keys: set<string>)
    ensures var w := Without(s, keys);
            && |w| <= |s|
            && (forall i :: 0 <= i < |w| ==> w[i] in s && w[i].key !in keys)
            && (forall i :: 0 <= i < |s| && s[i].key !in keys ==> s[i] in w)
            && (DistinctKeys(s) ==> DistinctKeys(w))
  {
    WithoutMembers(s, keys);
    if DistinctKeys(s) {
      WithoutDistinct(s, keys);
    }
  }

  lemma {:induction false} FindFacts(s: seq<Item>, key: string)
    ensures Find(s, key).Some? <==> Has(s, key)
    ensures Find(s, key).Some? ==> Find(s, key).value in s && Find(s, key).value.key == key
    ensures DistinctKeys(s) ==> forall i :: 0 <= i < |s| && s[i].key == key ==> Find(s, key) == Some(s[i])
  {
    if s != [] {
      FindFacts(s[1..], key);
      if Has(s[1..], key) {
        var i :| 0 <= i < |s[1..]| && s[1..][i].key == key;
        assert s[i + 1].key == key;
      }
      forall i | 0 <= i < |s| && s[i].key == key && DistinctKeys(s)
        ensures Find(s, key) == Some(s[i])
      {
        if i > 0 {
          assert s[1..][i - 1] == s[i];
          assert DistinctKeys(s[1..]);
        }
      }
    }
  }

  // ---------- the order entries leave in ----------

  /** Key k sits at position i. */
  predicate At(s: seq<Item>, i: nat, item: Item) {
    i < |s| && s[i] == item
  }

  lemma {:induction false} WithoutKeepsOrder(s: seq<Item>, keys: set<string>, i: nat) returns (j: nat)
    requires i < |s| && s[i].key !in keys
    ensures var w := Without(s, keys);
            && j <= i && j < |w| && w[j] == s[i]
            && w[..j] == Without(s[..i], keys)
  {
    if i == 0 {
      j := 0;
      assert Without(s[..i], keys) == [];
    } else {
      var k := WithoutKeepsOrder(s[1..], keys, i - 1);
      assert s[..i][1..] == s[1..][..i - 1];
      var head: seq<Item> := if s[0].key in keys then [] else [s[0]];
      j := |head| + k;
      assert Without(s, keys)[..j] == head + Without(s[1..], keys)[..k];
    }
  }

  lemma {:induction false} DistinctLength(s: seq<Item>)
    requires DistinctKeys(s)
    ensures |Keys(s)| == |s|
  {
    if s != [] {
      var t, x := s[..|s| - 1], s[|s| - 1];
      DistinctLength(t);
      assert Keys(s) == Keys(t) + {x.key};
      assert x.key !in Keys(t);
    }
  }

  lemma SubsetSize(a: set<string>, b: set<string>)
    requires a <= b
    ensures |a| <= |b|
  {
    if a != b {
      assert a + (b - a) == b;
    }
  }

  // ---------- what every run keeps ----------

  /** No key is held twice and the cache never outgrows its limit. */
  lemma {:induction false} BoundedAndDistinct(p: Policy, r: Run, n: nat)
    requires Valid(p, r) && n <= |r.ops|
    ensures DistinctKeys(r.states[n]) && |r.states[n]| <= p.maxEntries
  {
    if n > 0 {
      BoundedAndDistinct(p, r, n - 1);
      assert StepAt(p, r, n - 1);
      ApplyKeepsShape(p, r.states[n - 1], r.ops[n - 1]);
    }
  }

  lemma ApplyKeepsShape(p: Policy, s: seq<Item>, op: Op)
    requires p.maxEntries > 0 && DistinctKeys(s) && |s| <= p.maxEntries
    ensures DistinctKeys(Apply(p, s, op)) && |Apply(p, s, op)| <= p.maxEntries
  {
    match op {
      case Get(key, now) =>
        WithoutFacts(s, {key});
        FindFacts(s, key);
        if Has(s, key) {
          WithoutIsShorter(s, {key});
        }
      case Set(key, response, now, victims) =>
        WithoutFacts(s, {key});
        WithoutFacts(Without(s, {key}), victims);
      case Purge =>
    }
  }

  lemma {:induction false} WithoutIsShorter(s: seq<Item>, keys: set<string>)
    requires exists i :: 0 <= i < |s| && s[i].key in keys
    ensures |Without(s, keys)| < |s|
  {
    WithoutFacts(s[1..], keys);
    if s[0].key !in keys {
      var i :| 0 <= i < |s| && s[i].key in keys;
      assert s[1..][i - 1] == s[i];
      WithoutIsShorter(s[1..], keys);
    }
  }

  /** What a store needs. */
  ghost predicate Stores(p: Policy, key: string, response: Response) {
    key != "" && |response.body| <= p.maxBodyBytes
  }

  /** The key is held, and the time is not past its expiry. */
  ghost predicate Fresh(s: seq<Item>, key: string, now: real) {
    exists i :: 0 <= i < |s| && s[i].key == key && now <= s[i].expiresAt
  }

  lemma HitsFresh(s: seq<Item>, key: string, now: real)
    requires DistinctKeys(s)
    ensures GetResult(s, key, now).Some? <==> key != "" && Fresh(s, key, now)
    ensures GetResult(s, key, now).Some? ==> GetResult(s, key, now).value.key == key && GetResult(s, key, now).value in s
  {
    FindFacts(s, key);
  }

  /** The keys other than `key` that operations m, ..., n-1 stored or hit. */
  ghost function Touched(p: Policy, r: Run, key: string, m: nat, n: nat): set<string>
    requires m <= n <= |r.ops| < |r.states|
    decreases n
  {
    if m == n then {}
    else Touched(p, r, key, m, n - 1) + TouchedBy(p, r.states[n - 1], r.ops[n - 1], key)
  }

  /** An operation that neither purges nor stores the key anew, at a time no later than t. */
  ghost predicate QuietAt(p: Policy, op: Op, key: string, t: real) {
    && !op.Purge?
    && !(op.Set? && op.key == key && Stores(p, key, op.response))
    && op.now <= t
  }

  ghost predicate Quiet(p: Policy, ops: seq<Op>, key: string, m: nat, n: nat, t: real)
    requires m <= n <= |ops|
  {
    forall i :: m <= i < n ==> QuietAt(p, ops[i], key, t)
  }

  /** Item k is present, and whatever is ahead of it was used since it was in front. */
  ghost predicate Ahead(s: seq<Item>, item: Item, touched: set<string>) {
    exists i: nat :: At(s, i, item) && Keys(s[..i]) <= touched
  }

  lemma KeysOfWithout(s: seq<Item>, keys: set<string>)
    ensures Keys(Without(s, keys)) <= Keys(s) - keys
  {
    WithoutFacts(s, keys);
    var w := Without(s, keys);
    forall i | 0 <= i < |w|
      ensures w[i].key in Keys(s) - keys
    {
      assert w[i] in s;
    }
  }

  lemma WithoutKeepsAhead(s: seq<Item>, keys: set<string>, item: Item, touched: set<string>)
    requires Ahead(s, item, touched) && item.key !in keys
    ensures Ahead(Without(s, keys), item, touched - keys)
  {
    var i: nat :| At(s, i, item) && Keys(s[..i]) <= touched;
    var j := WithoutKeepsOrder(s, keys, i);
    KeysOfWithout(s[..i], keys);
    assert At(Without(s, keys), j, item);
  }

  lemma PushKeepsAhead(s: seq<Item>, x: Item, item: Item, touched: set<string>)
    requires Ahead(s, item, touched)
    ensures Ahead([x] + s, item, touched + {x.key})
  {
    var i: nat :| At(s, i, item) && Keys(s[..i]) <= touched;
    var s' := [x] + s;
    var front := s'[..i + 1];
    assert front == [x] + s[..i];
    forall k | 0 <= k < |front|
      ensures front[k].key in touched + {x.key}
    {
      if k > 0 {
        assert s[..i][k - 1].key in Keys(s[..i]);
      }
    }
    assert At(s', i + 1, item);
  }

  lemma CutKeepsAhead(s: seq<Item>, item: Item, touched: set<string>, n: int)
    requires DistinctKeys(s) && Ahead(s, item, touched) && |touched| < n
    ensures Ahead(s[..Min(|s|, n)], item, touched)
  {
    var i: nat :| At(s, i, item) && Keys(s[..i]) <= touched;
    DistinctLength(s[..i]);
    SubsetSize(Keys(s[..i]), touched);
    assert s[..Min(|s|, n)][..i] == s[..i];
    assert At(s[..Min(|s|, n)], i, item);
  }

  lemma AheadGrows(s: seq<Item>, item: Item, touched: set<string>, more: set<string>)
    requires Ahead(s, item, touched) && touched <= more
    ensures Ahead(s, item, more)
  {
    var i: nat :| At(s, i, item) && Keys(s[..i]) <= touched;
  }

  lemma GetKeepsAhead(s: seq<Item>, item: Item, touched: set<string>, key: string, now: real)
    requires DistinctKeys(s) && Ahead(s, item, touched) && now <= item.expiresAt
    ensures Ahead(GetState(s, key, now), item,
                  if key != "" && key != item.key && Fresh(s, key, now) then touched + {key} else touched)
  {
    FindFacts(s, key);
    HitsFresh(s, key, now);
    var s' := GetState(s, key, now);
    if s' == s {
      AheadGrows(s, item, touched, touched + {key});
    } else if key == item.key {
      AheadIsFound(s, item, touched);
      assert At(s', 0, item) && Keys(s'[..0]) == {};
    } else {
      var w := Without(s, {key});
      WithoutKeepsAhead(s, {key}, item, touched);
      AheadGrows(w, item, touched - {key}, touched);
      if GetResult(s, key, now).Some? {
        PushKeepsAhead(w, Find(s, key).value, item, touched);
      }
    }
  }

  lemma VictimsExpired(s: seq<Item>, item: Item, now: real, victims: set<string>)
    requires DistinctKeys(s) && item in s && now <= item.expiresAt && victims <= ExpiredKeys(s, now)
    ensures item.key !in victims
  {
  }

  /** What a store of another key leaves once the expired sample is gone. */
  lemma RemovalsKeepAhead(s: seq<Item>, item: Item, touched: set<string>, key: string, now: real, victims: set<string>)
    requires DistinctKeys(s) && Ahead(s, item, touched) && now <= item.expiresAt && key != item.key
    requires victims <= ExpiredKeys(Without(s, {key}), now)
    ensures var kept := Without(Without(s, {key}), victims);
            DistinctKeys(kept) && Ahead(kept, item, touched - {key})
  {
    var w := Without(s, {key});
    WithoutFacts(s, {key});
    WithoutFacts(w, victims);
    WithoutKeepsAhead(s, {key}, item, touched);
    VictimsExpired(w, item, now, victims);
    WithoutKeepsAhead(w, victims, item, touched - {key});
    AheadGrows(Without(w, victims), item, touched - {key} - victims, touched - {key});
  }

  lemma StoreKeepsAhead(kept: seq<Item>, x: Item, item: Item, touched: set<string>, n: int)
    requires DistinctKeys(kept) && Ahead(kept, item, touched - {x.key}) && |touched + {x.key}| < n
    ensures Ahead([x] + kept[..Min(|kept|, Max(0, n - 1))], item, touched + {x.key})
  {
    assert touched + {x.key} == (touched - {x.key}) + {x.key};
    CutKeepsAhead(kept, item, touched - {x.key}, n - 1);
    PushKeepsAhead(kept[..Min(|kept|, n - 1)], x, item, touched - {x.key});
  }

  lemma SetKeepsAhead(p: Policy, s: seq<Item>, item: Item, touched: set<string>,
                      key: string, response: Response, now: real, victims: set<string>)
    requires DistinctKeys(s) && Ahead(s, item, touched) && now <= item.expiresAt
    requires Stores(p, key, response) && key != item.key
    requires victims <= ExpiredKeys(Without(s, {key}), now)
    requires |touched + {key}| < p.maxEntries
    ensures Ahead(SetState(p, s, key, response, now, victims), item, touched + {key})
  {
    hide Without, Ahead, ExpiredKeys, DistinctKeys;
    RemovalsKeepAhead(s, item, touched, key, now, victims);
    StoreKeepsAhead(Without(Without(s, {key}), victims), Item(key, response, now + p.ttl), item, touched, p.maxEntries);
  }

  lemma AheadIsFound(s: seq<Item>, item: Item, touched: set<string>)
    requires DistinctKeys(s) && Ahead(s, item, touched)
    ensures Find(s, item.key) == Some(item)
  {
    FindFacts(s, item.key);
  }

  /** What one operation adds to the touched keys. */
  ghost function TouchedBy(p: Policy, s: seq<Item>, op: Op, key: string): set<string> {
    match op
    case Get(k, now) => if k != "" && k != key && Fresh(s, k, now) then {k} else {}
    case Set(k, response, _, _) => if k != key && Stores(p, k, response) then {k} else {}
    case Purge => {}
  }

  lemma OpKeepsAhead(p: Policy, s: seq<Item>, op: Op, item: Item, touched: set<string>)
    requires p.maxEntries > 0 && DistinctKeys(s) && Ahead(s, item, touched)
    requires op.Get? || (op.Set? && (Stores(p, op.key, op.response) ==> op.key != item.key))
    requires op.now <= item.expiresAt
    requires op.Set? ==> op.victims <= ExpiredKeys(Without(s, {op.key}), op.now)
    requires |touched + TouchedBy(p, s, op, item.key)| < p.maxEntries
    ensures Ahead(Apply(p, s, op), item, touched + TouchedBy(p, s, op, item.key))
  {
    assert touched + {} == touched;
    if op.Get? {
      GetKeepsAhead(s, item, touched, op.key, op.now);
    } else if Stores(p, op.key, op.response) {
      SetKeepsAhead(p, s, item, touched, op.key, op.response, op.now, op.victims);
    }
  }

  /** An entry that is not expired is lost only by a purge, or once maxEntries other keys were stored
      or hit since its last use: after operation m-1 used the key, it is still there, with the same
      response, as long as fewer were. */
  lemma {:induction false} KeptUntilCrowdedOut(p: Policy, r: Run, item: Item, m: nat, n: nat)
    requires Valid(p, r) && m <= n <= |r.ops|
    requires At(r.states[m], 0, item)
    requires Quiet(p, r.ops, item.key, m, n, item.expiresAt)
    requires |Touched(p, r, item.key, m, n)| < p.maxEntries
    ensures Ahead(r.states[n], item, Touched(p, r, item.key, m, n))
    ensures Find(r.states[n], item.key) == Some(item)
    decreases n
  {
    if m == n {
      assert Keys(r.states[n][..0]) == {};
    } else {
      var touched, op := Touched(p, r, item.key, m, n - 1), r.ops[n - 1];
      SubsetSize(touched, Touched(p, r, item.key, m, n));
      KeptUntilCrowdedOut(p, r, item, m, n - 1);
      BoundedAndDistinct(p, r, n - 1);
      assert StepAt(p, r, n - 1);
      OpKeepsAhead(p, r.states[n - 1], op, item, touched);
    }
    BoundedAndDistinct(p, r, n);
    AheadIsFound(r.states[n], item, Touched(p, r, item.key, m, n));
  }

  /** Storing or hitting a key puts it in front, so the lemma above applies from there. */
  lemma UsePutsInFront(p: Policy, s: seq<Item>, op: Op)
    requires p.maxEntries > 0 && DistinctKeys(s)
    requires (op.Get? && op.key != "" && Fresh(s, op.key, op.now)) || (op.Set? && Stores(p, op.key, op.response))
    ensures Apply(p, s, op) != [] && Apply(p, s, op)[0].key == op.key
    ensures op.Get? ==> Apply(p, s, op)[0] in s
    ensures op.Set? ==> Apply(p, s, op)[0] == Item(op.key, op.response, op.now + p.ttl)
  {
    FindFacts(s, op.key);
    if op.Get? {
      HitsFresh(s, op.key, op.now);
    }
  }

  /** Operation m is the last that stored the key, with nothing purged since. */
  ghost predicate LastStore(p: Policy, ops: seq<Op>, key: string, m: nat, n: nat)
    requires n <= |ops|
  {
    && m < n && ops[m].Set? && ops[m].key == key && Stores(p, key, ops[m].response)
    && forall i :: m < i < n ==> !ops[i].Purge? && !(ops[i].Set? && ops[i].key == key && Stores(p, key, ops[i].response))
  }

  /** An operation leaves an item it did not store itself as it was. */
  lemma OldItem(p: Policy, s: seq<Item>, op: Op, item: Item)
    requires DistinctKeys(s) && item in Apply(p, s, op)
    requires op.Set? && Stores(p, op.key, op.response) ==> item != Item(op.key, op.response, op.now + p.ttl)
    ensures item in s && !op.Purge?
    ensures op.Set? && Stores(p, op.key, op.response) ==> op.key != item.key
  {
    if op.Get? {
      WithoutFacts(s, {op.key});
      FindFacts(s, op.key);
    } else if op.Set? && Stores(p, op.key, op.response) {
      var w := Without(s, {op.key});
      WithoutFacts(s, {op.key});
      WithoutFacts(w, op.victims);
      var kept := Without(w, op.victims);
      var tail := kept[..Min(|kept|, Max(0, p.maxEntries - 1))];
      assert item in tail;
      var i :| 0 <= i < |tail| && tail[i] == item;
      assert kept[i] == item;
    }
  }

  /** The cache never makes anything up: what it holds for a key is what the last store put there,
      under that store's expiry, and nothing older than a purge. */
  lemma {:induction false} HoldsLastStore(p: Policy, r: Run, n: nat, item: Item) returns (m: nat)
    requires Valid(p, r) && n <= |r.ops| && item in r.states[n]
    ensures LastStore(p, r.ops, item.key, m, n)
    ensures item == Item(item.key, r.ops[m].response, r.ops[m].now + p.ttl)
  {
    var op := r.ops[n - 1];
    BoundedAndDistinct(p, r, n - 1);
    assert StepAt(p, r, n - 1);
    if op.Set? && Stores(p, op.key, op.response) && item == Item(op.key, op.response, op.now + p.ttl) {
      m := n - 1;
    } else {
      OldItem(p, r.states[n - 1], op, item);
      m := HoldsLastStore(p, r, n - 1, item);
    }
  }

  /** What a Get answers: something exactly if the key is held and not past its expiry, and then the response
      of the last store of the key, none of it changed, with the expiry that store gave it. */
  lemma {:induction false} GetAnswersLastStore(p: Policy, r: Run, n: nat) returns (m: nat)
    requires Valid(p, r) && n < |r.ops| && r.ops[n].Get?
    ensures var s, key, now := r.states[n], r.ops[n].key, r.ops[n].now;
            var answer := GetResult(s, key, now);
            && (answer.Some? <==> key != "" && exists i :: 0 <= i < |s| && s[i].key == key && now <= s[i].expiresAt)
            && (answer.Some? ==> LastStore(p, r.ops, key, m, n))
            && (answer.Some? ==> answer.value == Item(key, r.ops[m].response, r.ops[m].now + p.ttl))
  {
    var s, key, now := r.states[n], r.ops[n].key, r.ops[n].now;
    BoundedAndDistinct(p, r, n);
    HitsFresh(s, key, now);
    m := 0;
    if GetResult(s, key, now).Some? {
      m := HoldsLastStore(p, r, n, GetResult(s, key, now).value);
    }
  }

  /** A response is found again as long as it has not expired and fewer than maxEntries other keys were
      stored or hit since it was stored. */
  lemma {:induction false} StoredIsFound(p: Policy, r: Run, m: nat, n: nat)
    requires Valid(p, r) && m < n < |r.ops| && r.ops[m].Set? && r.ops[n].Get? && r.ops[n].key == r.ops[m].key
    requires var op := r.ops[m];
             && Stores(p, op.key, op.response) && r.ops[n].now <= op.now + p.ttl
             && Quiet(p, r.ops, op.key, m + 1, n, op.now + p.ttl)
             && |Touched(p, r, op.key, m + 1, n)| < p.maxEntries
    ensures var op := r.ops[m];
            GetResult(r.states[n], op.key, r.ops[n].now) == Some(Item(op.key, op.response, op.now + p.ttl))
  {
    var op := r.ops[m];
    assert StepAt(p, r, m);
    BoundedAndDistinct(p, r, m);
    UsePutsInFront(p, r.states[m], op);
    KeptUntilCrowdedOut(p, r, Item(op.key, op.response, op.now + p.ttl), m + 1, n);
  }

  lemma VictimsWere(s: seq<Item>, key: string, now: real, victims: set<string>)
    requires DistinctKeys(s) && victims <= ExpiredKeys(Without(s, {key}), now)
    ensures forall k :: k in victims ==> k != key && Has(s, k) && !Fresh(s, k, now)
  {
    var w := Without(s, {key});
    WithoutFacts(s, {key});
    forall k | k in victims
      ensures k != key && Has(s, k) && !Fresh(s, k, now)
    {
      var i :| 0 <= i < |w| && w[i].key == k && Expired(w[i], now);
      assert w[i] in s;
    }
  }

  lemma StoredState(p: Policy, s: seq<Item>, op: Op)
    requires DistinctKeys(s) && op.Set? && Stores(p, op.key, op.response)
    ensures var s', w := Apply(p, s, op), Without(s, {op.key});
            && |s'| > 0 && s'[0].key == op.key
            && forall i :: 0 < i < |s'| ==> s'[i] in w && s'[i].key !in op.victims && s'[i].key != op.key
  {
    var w := Without(s, {op.key});
    WithoutFacts(s, {op.key});
    WithoutFacts(w, op.victims);
    var kept, s' := Without(w, op.victims), Apply(p, s, op);
    assert forall i :: 0 < i < |s'| ==> s'[i] == kept[i - 1];
  }

  lemma AllExpired(w: seq<Item>, now: real, x: Item)
    requires x in w && x.key !in ExpiredKeys(w, now)
    ensures now <= x.expiresAt
  {
  }

  ghost predicate Gone(s: seq<Item>, s': seq<Item>, now: real, k: string) {
    Has(s, k) && !Fresh(s, k, now) && forall i :: 0 <= i < |s'| ==> s'[i].key != k
  }

  /** A store drops every expired entry, or ten of them. */
  lemma {:induction false} ExpiredLeave(p: Policy, r: Run, n: nat)
    requires Valid(p, r) && n < |r.ops| && r.ops[n].Set? && Stores(p, r.ops[n].key, r.ops[n].response)
    ensures var s, s', op := r.states[n], r.states[n + 1], r.ops[n];
            || (forall i :: 0 <= i < |s'| && s'[i].key != op.key ==> op.now <= s'[i].expiresAt)
            || exists gone: set<string> :: |gone| == 10 && forall k :: k in gone ==> Gone(s, s', op.now, k)
  {
    var s, s', op := r.states[n], r.states[n + 1], r.ops[n];
    assert StepAt(p, r, n);
    BoundedAndDistinct(p, r, n);
    VictimsWere(s, op.key, op.now, op.victims);
    StoredState(p, s, op);
    hide Without, Fresh, DistinctKeys, Apply;
    if op.victims == ExpiredKeys(Without(s, {op.key}), op.now) {
      forall i | 0 <= i < |s'| && s'[i].key != op.key
        ensures op.now <= s'[i].expiresAt
      {
        AllExpired(Without(s, {op.key}), op.now, s'[i]);
      }
    } else {
      assert forall k :: k in op.victims ==> Gone(s, s', op.now, k);
    }
  }
}
