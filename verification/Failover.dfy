/** The cluster-sync client's choice of controller endpoint: cooldowns after failures, failover within
    one request. Times are nanoseconds. */
module Failover {
  import opened Common
  import Text

  const SECOND := 1_000_000_000

  /** What a request to one endpoint may end in. */
  datatype SyncError = Unauthorized | RequestFailed(status: int) | Other(text: string)

  /** Not on a rejected login, nor on a response outside 2xx unless it is a 5xx; otherwise yes. */
  predicate ShouldFailover(e: SyncError) {
    match e
    case Unauthorized => false
    case RequestFailed(status) => 500 <= status < 600
    case Other(_) => true
  }

  // ---------- the endpoints ----------

  function TrimSlashes(s: string): string {
    if s != "" && s[|s| - 1] == '/' then TrimSlashes(s[..|s| - 1]) else s
  }

  /** Without surrounding space and trailing slashes, each once. */
  function BaseURLs(items: seq<string>): seq<string> {
    if items == [] then []
    else
      var before, value := BaseURLs(items[..|items| - 1]), TrimSlashes(Text.Trim(items[|items| - 1]));
      if value == "" || value in before then before else before + [value]
  }

  method NormalizeBaseURLs(items: seq<string>) returns (urls: seq<string>)
    ensures urls == BaseURLs(items)
  {
    urls := [];
    var seen: set<string> := {};
    for i := 0 to |items|
      invariant urls == BaseURLs(items[..i])
      invariant seen == set u | u in urls
    {
      assert items[..i + 1][..i] == items[..i];
      var value := TrimSlashes(Text.Trim(items[i]));
      if value == "" || value in seen {
        continue;
      }
      seen := seen + {value};
      urls := urls + [value];
    }
    assert items[..|items|] == items;
  }

  lemma {:induction false} TrimSlashesFront(s: string)
    ensures TrimSlashes(s) != "" ==> s != "" && TrimSlashes(s)[0] == s[0]
  {
    if s != "" && s[|s| - 1] == '/' {
      TrimSlashesFront(s[..|s| - 1]);
    }
  }

  /** The endpoints are distinct and none is blank. */
  lemma {:induction false} BaseURLsDistinct(items: seq<string>)
    ensures Distinct(BaseURLs(items))
    ensures forall u :: u in BaseURLs(items) ==> u != "" && !Text.IsSpace(u[0])
  {
    if items != [] {
      var last := Text.Trim(items[|items| - 1]);
      BaseURLsDistinct(items[..|items| - 1]);
      Text.TrimFacts(items[|items| - 1]);
      TrimSlashesFront(last);
    }
  }

  ghost predicate AllSlashes(s: string) {
    forall i :: 0 <= i < |s| ==> s[i] == '/'
  }

  lemma {:induction false} TrimSlashesCuts(s: string) returns (t: string)
    ensures s == TrimSlashes(s) + t && AllSlashes(t)
    ensures TrimSlashes(s) != "" ==> TrimSlashes(s)[|TrimSlashes(s)| - 1] != '/'
  {
    t := "";
    if s != "" && s[|s| - 1] == '/' {
      var u := TrimSlashesCuts(s[..|s| - 1]);
      t := u + "/";
    }
  }

  lemma {:induction false} TrimSlashesOf(u: string, t: string)
    requires u != "" && u[|u| - 1] != '/' && AllSlashes(t)
    ensures TrimSlashes(u + t) == u
    decreases |t|
  {
    if t == "" {
      assert u + t == u;
    } else {
      assert (u + t)[..|u + t| - 1] == u + t[..|t| - 1];
      TrimSlashesOf(u, t[..|t| - 1]);
    }
  }

  /** The item is the endpoint and slashes after it, with space around. */
  ghost predicate Denotes(item: string, u: string) {
    u != "" && u[|u| - 1] != '/' && exists t :: AllSlashes(t) && Text.Trim(item) == u + t
  }

  lemma DenotesIs(item: string, u: string)
    ensures Denotes(item, u) <==> u != "" && u == TrimSlashes(Text.Trim(item))
  {
    hide Text.Trim;
    if Denotes(item, u) {
      var t :| AllSlashes(t) && Text.Trim(item) == u + t;
      TrimSlashesOf(u, t);
    }
    var t := TrimSlashesCuts(Text.Trim(item));
  }

  /** Some item denotes a before any denotes b. */
  ghost predicate DenotedFirst(items: seq<string>, a: string, b: string) {
    exists i :: 0 <= i < |items| && Denotes(items[i], a) && forall j :: 0 <= j <= i ==> !Denotes(items[j], b)
  }

  lemma DenotedFirstLater(items: seq<string>, more: seq<string>, a: string, b: string)
    requires DenotedFirst(items, a, b)
    ensures DenotedFirst(items + more, a, b)
  {
    var i :| 0 <= i < |items| && Denotes(items[i], a) && forall j :: 0 <= j <= i ==> !Denotes(items[j], b);
    assert forall j :: 0 <= j <= i ==> (items + more)[j] == items[j];
  }

  lemma DenotedBefore(items: seq<string>, a: string, b: string)
    requires exists i :: 0 <= i < |items| && Denotes(items[i], a)
    requires forall i :: 0 <= i < |items| ==> !Denotes(items[i], b)
    ensures DenotedFirst(items, a, b)
  {
  }

  /** The endpoints are those the items denote, in the order they are first denoted. */
  lemma {:induction false} BaseURLsMean(items: seq<string>)
    ensures forall u :: u in BaseURLs(items) <==> exists i :: 0 <= i < |items| && Denotes(items[i], u)
    ensures forall i, j :: 0 <= i < j < |BaseURLs(items)| ==> DenotedFirst(items, BaseURLs(items)[i], BaseURLs(items)[j])
  {
    hide Denotes, DenotedFirst, TrimSlashes, Text.Trim;
    if items != [] {
      var n := |items| - 1;
      var rest, value := items[..n], TrimSlashes(Text.Trim(items[n]));
      BaseURLsMean(rest);
      assert items == rest + [items[n]];
      var before, urls := BaseURLs(rest), BaseURLs(items);
      assert forall i, j :: 0 <= i < j < |before| ==> DenotedFirst(rest, before[i], before[j]);
      forall u
        ensures u in urls <==> exists i :: 0 <= i < |items| && Denotes(items[i], u)
      {
        DenotesIs(items[n], u);
        assert u in urls <==> u in before || (u == value && u != "");
        if i :| 0 <= i < n && Denotes(rest[i], u) {
          assert Denotes(items[i], u);
        }
      }
      forall i, j | 0 <= i < j < |urls|
        ensures DenotedFirst(items, urls[i], urls[j])
      {
        assert urls[i] == before[i];
        if j < |before| {
          assert urls[j] == before[j];
        } else {
          assert value !in before && before[i] in before;
          assert forall l :: 0 <= l < n ==> !Denotes(rest[l], value);
          DenotedBefore(rest, before[i], value);
        }
        DenotedFirstLater(rest, [items[n]], urls[i], urls[j]);
      }
    }
  }

  // ---------- how long a failing endpoint is held back ----------

  /** Two seconds, doubled for every further failure, a minute at most. */
  function Cooldown(failures: int): int {
    if failures <= 0 then 0 else Min(60 * SECOND, 2 * SECOND * Pow2(failures - 1))
  }

  method FailoverCooldown(failures: int) returns (d: int)
    ensures d == Cooldown(failures)
  {
    if failures <= 0 {
      return 0;
    }
    var steps := failures;
    if steps > 6 {
      steps := 6;
    }
    d := 2 * SECOND;
    var i := 1;
    while i < steps
      invariant 1 <= i <= steps && d == 2 * SECOND * Pow2(i - 1)
    {
      d := d * 2;
      i := i + 1;
    }
    if failures > 6 {
      assert Pow2(5) == 32;
      Pow2Grows(5, failures - 1);
    }
    var max := 60 * SECOND;
    if d > max {
      return max;
    }
  }

  lemma CooldownDoubles(failures: int)
    ensures failures <= 0 ==> Cooldown(failures) == 0
    ensures Cooldown(1) == 2_000_000_000
    ensures failures >= 1 ==> Cooldown(failures + 1) == Min(60_000_000_000, 2 * Cooldown(failures))
  {
    if failures >= 1 {
      Pow2Grows(0, failures - 1);
    }
  }

  // ---------- the order endpoints are tried in ----------

  predicate Eligible(cooldowns: map<string, int>, url: string, now: int) {
    url in cooldowns ==> now >= cooldowns[url]
  }

  /** Of the first n endpoints from `start` round the ring, those that are eligible, or those held. */
  function Select(urls: seq<string>, start: nat, n: nat, cooldowns: map<string, int>, now: int, eligible: bool): seq<string>
    requires urls != []
  {
    if n == 0 then []
    else
      var url := urls[(start + n - 1) % |urls|];
      Select(urls, start, n - 1, cooldowns, now, eligible)
      + if Eligible(cooldowns, url, now) == eligible then [url] else []
  }

  function Prioritized(urls: seq<string>, start: nat, cooldowns: map<string, int>, now: int): seq<string>
    requires urls != []
  {
    var eligible := Select(urls, start, |urls|, cooldowns, now, true);
    if eligible == [] then urls else eligible + Select(urls, start, |urls|, cooldowns, now, false)
  }

  function Rotated(urls: seq<string>, start: nat, n: nat): seq<string>
    requires urls != []
  {
    if n == 0 then [] else Rotated(urls, start, n - 1) + [urls[(start + n - 1) % |urls|]]
  }

  lemma OneMoreSplits(a: seq<string>, b: seq<string>, c: seq<string>, url: string, first: bool)
    requires multiset(a) + multiset(b) == multiset(c)
    ensures multiset(a + if first then [url] else []) + multiset(b + if first then [] else [url]) == multiset(c + [url])
  {
  }

  lemma SelectStep(urls: seq<string>, start: nat, n: nat, cooldowns: map<string, int>, now: int, eligible: bool)
    requires urls != []
    ensures var x := urls[(start + n) % |urls|];
            && Rotated(urls, start, n + 1) == Rotated(urls, start, n) + [x]
            && Select(urls, start, n + 1, cooldowns, now, eligible) ==
               Select(urls, start, n, cooldowns, now, eligible) + if Eligible(cooldowns, x, now) == eligible then [x] else []
  {
    hide Eligible;
  }

  lemma SelectNothing(urls: seq<string>, start: nat, cooldowns: map<string, int>, now: int, eligible: bool)
    requires urls != []
    ensures Select(urls, start, 0, cooldowns, now, eligible) == [] && Rotated(urls, start, 0) == []
  {
  }

  lemma {:induction false} SelectSplits(urls: seq<string>, start: nat, n: nat, cooldowns: map<string, int>, now: int)
    requires urls != []
    ensures multiset(Select(urls, start, n, cooldowns, now, true)) + multiset(Select(urls, start, n, cooldowns, now, false))
            == multiset(Rotated(urls, start, n))
  {
    hide Eligible, Select, Rotated;
    if n == 0 {
      SelectNothing(urls, start, cooldowns, now, true);
      SelectNothing(urls, start, cooldowns, now, false);
    } else {
      var k := n - 1;
      SelectSplits(urls, start, k, cooldowns, now);
      SelectSteps(urls, start, k, cooldowns, now);
      var url := urls[(start + k) % |urls|];
      OneMoreSplits(Select(urls, start, k, cooldowns, now, true), Select(urls, start, k, cooldowns, now, false),
                    Rotated(urls, start, k), url, Eligible(cooldowns, url, now));
    }
  }

  lemma SelectSteps(urls: seq<string>, start: nat, n: nat, cooldowns: map<string, int>, now: int)
    requires urls != []
    ensures var x := urls[(start + n) % |urls|];
            && Rotated(urls, start, n + 1) == Rotated(urls, start, n) + [x]
            && Select(urls, start, n + 1, cooldowns, now, true) ==
               Select(urls, start, n, cooldowns, now, true) + (if Eligible(cooldowns, x, now) then [x] else [])
            && Select(urls, start, n + 1, cooldowns, now, false) ==
               Select(urls, start, n, cooldowns, now, false) + (if Eligible(cooldowns, x, now) then [] else [x])
  {
    hide Eligible, Select, Rotated;
    SelectStep(urls, start, n, cooldowns, now, true);
    SelectStep(urls, start, n, cooldowns, now, false);
  }

  lemma {:induction false} SelectSelects(
      urls: seq<string>, start: nat, n: nat, cooldowns: map<string, int>, now: int, eligible: bool)
    requires urls != []
    ensures forall u :: u in Select(urls, start, n, cooldowns, now, eligible) ==> Eligible(cooldowns, u, now) == eligible
  {
    if n > 0 {
      SelectSelects(urls, start, n - 1, cooldowns, now, eligible);
    }
  }

  lemma RingIndex(start: nat, i: nat, m: nat)
    requires start < m && i < m
    ensures (start + i) % m == if start + i < m then start + i else start + i - m
  {
  }

  function Ring(urls: seq<string>, start: nat, n: nat): seq<string>
    requires start < |urls| && n <= |urls|
  {
    if start + n <= |urls| then urls[start..start + n] else urls[start..] + urls[..start + n - |urls|]
  }

  lemma RingStarts(urls: seq<string>, start: nat)
    requires start < |urls|
    ensures Rotated(urls, start, 0) == Ring(urls, start, 0)
  {
  }

  lemma RingGrows(urls: seq<string>, start: nat, n: nat)
    requires start < |urls| && n < |urls|
    ensures Ring(urls, start, n + 1) ==
            Ring(urls, start, n) + [urls[if start + n < |urls| then start + n else start + n - |urls|]]
  {
    if start + n < |urls| {
      assert urls[start..start + n] + [urls[start + n]] == urls[start..start + n + 1];
      assert start + n + 1 == |urls| ==> urls[start..] == urls[start..start + n + 1];
    } else {
      var k := start + n - |urls|;
      assert urls[..k] + [urls[k]] == urls[..k + 1];
      assert k == 0 ==> urls[start..start + n] == urls[start..] + urls[..k];
      assert urls[start..] + urls[..k + 1] == urls[start..] + urls[..k] + [urls[k]];
    }
  }

  lemma RotatedStep(urls: seq<string>, start: nat, n: nat)
    requires start < |urls| && n < |urls|
    ensures Rotated(urls, start, n + 1) ==
            Rotated(urls, start, n) + [urls[if start + n < |urls| then start + n else start + n - |urls|]]
  {
    RingIndex(start, n, |urls|);
  }

  lemma {:induction false} RotatedIs(urls: seq<string>, start: nat, n: nat)
    requires start < |urls| && n <= |urls|
    ensures Rotated(urls, start, n) == Ring(urls, start, n)
  {
    hide Rotated, Ring;
    if n == 0 {
      RingStarts(urls, start);
    } else {
      RotatedStep(urls, start, n - 1);
      RotatedIs(urls, start, n - 1);
      RingGrows(urls, start, n - 1);
    }
  }

  lemma RingPermutes(urls: seq<string>, start: nat)
    requires start < |urls|
    ensures multiset(Ring(urls, start, |urls|)) == multiset(urls)
  {
    var back, front := urls[start..], urls[..start];
    assert urls == front + back;
    assert Ring(urls, start, |urls|) == back + front;
  }

  lemma SelectionsPermute(urls: seq<string>, start: nat, cooldowns: map<string, int>, now: int)
    requires start < |urls|
    ensures multiset(Select(urls, start, |urls|, cooldowns, now, true))
            + multiset(Select(urls, start, |urls|, cooldowns, now, false)) == multiset(urls)
  {
    SelectSplits(urls, start, |urls|, cooldowns, now);
    RotatedIs(urls, start, |urls|);
    RingPermutes(urls, start);
  }

  lemma SameLength(a: seq<string>, b: seq<string>)
    requires multiset(a) == multiset(b)
    ensures |a| == |b|
  {
    assert |multiset(a)| == |a| && |multiset(b)| == |b|;
  }

  /** Held back until its cooldown is over. */
  ghost predicate HeldBack(cooldowns: map<string, int>, url: string, now: int) {
    url in cooldowns && now < cooldowns[url]
  }

  ghost predicate EligibleFirst(ordered: seq<string>, k: nat, cooldowns: map<string, int>, now: int) {
    && k <= |ordered|
    && (forall i :: 0 <= i < |ordered| ==> (i < k <==> !HeldBack(cooldowns, ordered[i], now)))
  }

  ghost predicate OccursBefore(s: seq<string>, a: string, b: string) {
    exists p, q :: 0 <= p < q < |s| && s[p] == a && s[q] == b
  }

  lemma OccursBeforeLater(s: seq<string>, x: string, a: string, b: string)
    requires OccursBefore(s, a, b) || (a in s && b == x)
    ensures OccursBefore(s + [x], a, b)
  {
    var t := s + [x];
    assert t[|s|] == x && forall k :: 0 <= k < |s| ==> t[k] == s[k];
    if OccursBefore(s, a, b) {
      var p, q :| 0 <= p < q < |s| && s[p] == a && s[q] == b;
      assert t[p] == a && t[q] == b;
    } else {
      var p :| 0 <= p < |s| && s[p] == a;
      assert t[p] == a;
    }
  }

  ghost predicate GoesRound(s: seq<string>, ring: seq<string>) {
    && (forall i :: 0 <= i < |s| ==> s[i] in ring)
    && forall i, j :: 0 <= i < j < |s| ==> OccursBefore(ring, s[i], s[j])
  }

  lemma GoesFurther(s: seq<string>, ring: seq<string>, x: string)
    requires GoesRound(s, ring)
    ensures GoesRound(s, ring + [x]) && GoesRound(s + [x], ring + [x])
  {
    hide OccursBefore;
    forall i, j | 0 <= i < j < |s + [x]|
      ensures OccursBefore(ring + [x], (s + [x])[i], (s + [x])[j])
    {
      assert (s + [x])[i] == s[i] && s[i] in ring;
      assert (s + [x])[j] == if j < |s| then s[j] else x;
      OccursBeforeLater(ring, x, (s + [x])[i], (s + [x])[j]);
    }
    forall i, j | 0 <= i < j < |s|
      ensures OccursBefore(ring + [x], s[i], s[j])
    {
      OccursBeforeLater(ring, x, s[i], s[j]);
    }
  }

  lemma {:induction false} SelectGoesRound(
      urls: seq<string>, start: nat, n: nat, cooldowns: map<string, int>, now: int, eligible: bool)
    requires urls != []
    ensures GoesRound(Select(urls, start, n, cooldowns, now, eligible), Rotated(urls, start, n))
  {
    hide Select, Rotated;
    if n == 0 {
      SelectNothing(urls, start, cooldowns, now, eligible);
    } else {
      SelectGoesRound(urls, start, n - 1, cooldowns, now, eligible);
      SelectStep(urls, start, n - 1, cooldowns, now, eligible);
      GoesFurther(Select(urls, start, n - 1, cooldowns, now, eligible), Rotated(urls, start, n - 1), urls[(start + (n - 1)) % |urls|]);
    }
  }

  lemma EligibleIs(cooldowns: map<string, int>, now: int)
    ensures forall u :: Eligible(cooldowns, u, now) <==> !HeldBack(cooldowns, u, now)
  {
  }

  lemma SelectedAreHeld(urls: seq<string>, start: nat, cooldowns: map<string, int>, now: int)
    requires start < |urls|
    ensures forall u :: u in Select(urls, start, |urls|, cooldowns, now, true) ==> !HeldBack(cooldowns, u, now)
    ensures forall u :: u in Select(urls, start, |urls|, cooldowns, now, false) ==> HeldBack(cooldowns, u, now)
    ensures Select(urls, start, |urls|, cooldowns, now, true) == [] <==>
            forall k :: 0 <= k < |urls| ==> HeldBack(cooldowns, urls[k], now)
  {
    hide Select, Eligible, HeldBack;
    SelectSelects(urls, start, |urls|, cooldowns, now, true);
    SelectSelects(urls, start, |urls|, cooldowns, now, false);
    SelectionsPermute(urls, start, cooldowns, now);
    EligibleIs(cooldowns, now);
    var eligible, held := Select(urls, start, |urls|, cooldowns, now, true), Select(urls, start, |urls|, cooldowns, now, false);
    if eligible == [] {
      forall k | 0 <= k < |urls|
        ensures HeldBack(cooldowns, urls[k], now)
      {
        assert multiset(held) == multiset(urls);
        assert urls[k] in multiset(held);
      }
    } else {
      assert eligible[0] in multiset(urls);
    }
  }

  lemma SelectionOf(a: seq<string>, b: seq<string>, k: nat)
    requires k < |a + b|
    ensures k < |a| ==> (a + b)[k] == a[k] && (a + b)[k] in a
    ensures k >= |a| ==> (a + b)[k] == b[k - |a|] && (a + b)[k] in b
  {
  }

  /** If some endpoint is not held back, those that are not come first; they, and those that are, come in the order
      of the ring that begins with the active endpoint. If all are held back the order is the configured one. */
  lemma {:induction false} OrderGoesRound(urls: seq<string>, st: State, now: int, i: nat, j: nat)
    requires urls != [] && i < j < |Order(urls, st, now)|
    ensures var ordered, start := Order(urls, st, now), if 0 <= st.active < |urls| then st.active else 0;
            if forall k :: 0 <= k < |urls| ==> HeldBack(st.cooldowns, urls[k], now) then ordered == urls
            else if HeldBack(st.cooldowns, ordered[i], now) == HeldBack(st.cooldowns, ordered[j], now) then
              OccursBefore(urls[start..] + urls[..start], ordered[i], ordered[j])
            else HeldBack(st.cooldowns, ordered[j], now)
  {
    hide HeldBack, OccursBefore, Select, Rotated, Ring;
    var start, ordered := Current(urls, st), Order(urls, st, now);
    var eligible, held := Select(urls, start, |urls|, st.cooldowns, now, true), Select(urls, start, |urls|, st.cooldowns, now, false);
    SelectedAreHeld(urls, start, st.cooldowns, now);
    if eligible != [] {
      SelectionOf(eligible, held, i);
      SelectionOf(eligible, held, j);
      SelectGoesRound(urls, start, |urls|, st.cooldowns, now, true);
      SelectGoesRound(urls, start, |urls|, st.cooldowns, now, false);
      RotatedIs(urls, start, |urls|);
      WholeRing(urls, start);
    }
  }

  lemma WholeRing(urls: seq<string>, start: nat)
    requires start < |urls|
    ensures Ring(urls, start, |urls|) == urls[start..] + urls[..start]
  {
  }

  /** The prioritised order is the configured endpoints, each once, eligible ones before held ones. */
  lemma PrioritizedIsPermutation(urls: seq<string>, start: nat, cooldowns: map<string, int>, now: int) returns (k: nat)
    requires start < |urls|
    ensures var ordered := Prioritized(urls, start, cooldowns, now);
            multiset(ordered) == multiset(urls) && |ordered| == |urls| && EligibleFirst(ordered, k, cooldowns, now)
  {
    var eligible := Select(urls, start, |urls|, cooldowns, now, true);
    var held := Select(urls, start, |urls|, cooldowns, now, false);
    var ordered := Prioritized(urls, start, cooldowns, now);
    hide Select, HeldBack;
    SelectionsPermute(urls, start, cooldowns, now);
    SelectedAreHeld(urls, start, cooldowns, now);
    k := |eligible|;
    if eligible != [] {
      forall i | 0 <= i < |ordered|
        ensures i < k <==> !HeldBack(cooldowns, ordered[i], now)
      {
        SelectionOf(eligible, held, i);
      }
    }
    SameLength(ordered, urls);
  }

  // ---------- one request ----------

  datatype State = State(failures: map<string, int>, cooldowns: map<string, int>, active: int)

  /** What every endpoint would answer, and when, were it called. */
  datatype World = World(answer: string -> Option<SyncError>, at: string -> int)

  datatype Event = Failed(url: string, at: int) | Succeeded(url: string)

  function FailuresOf(st: State, url: string): int {
    if url in st.failures then st.failures[url] else 0
  }

  function MarkFailed(st: State, url: string, now: int): State {
    var fails := FailuresOf(st, url) + 1;
    st.(failures := st.failures[url := fails], cooldowns := st.cooldowns[url := now + Cooldown(fails)])
  }

  function MarkSucceeded(st: State, url: string): State {
    st.(failures := st.failures[url := 0], cooldowns := st.cooldowns - {url})
  }

  function IndexOf(urls: seq<string>, url: string): int {
    if urls == [] then -1
    else if urls[|urls| - 1] == url && IndexOf(urls[..|urls| - 1], url) < 0 then |urls| - 1
    else IndexOf(urls[..|urls| - 1], url)
  }

  /** How a request went: the state it leaves, the marks it made, the endpoints it called. */
  datatype Trip = Trip(state: State, events: seq<Event>, called: seq<string>, error: Option<SyncError>)

  /** Calling the endpoints of `ordered` from position i on. */
  function TryFrom(urls: seq<string>, ordered: seq<string>, i: nat, st: State, w: World): Trip
    requires i < |ordered|
    decreases |ordered| - i
  {
    var url := ordered[i];
    var answer := w.answer(url);
    if answer.None? then
      Trip(SetActive(urls, MarkSucceeded(st, url), IndexOf(urls, url)), [Succeeded(url)], [url], None)
    else if !ShouldFailover(answer.value) || i + 1 == |ordered| then
      Trip(st, [], [url], answer)
    else
      var rest := TryFrom(urls, ordered, i + 1, MarkFailed(st, url, w.at(url)), w);
      rest.(events := [Failed(url, w.at(url))] + rest.events, called := [url] + rest.called)
  }

  function SetActive(urls: seq<string>, st: State, index: int): State {
    if 0 <= index < |urls| then st.(active := index) else st
  }

  /** The active endpoint; an index out of range falls back to the first. */
  function Current(urls: seq<string>, st: State): nat {
    if 0 <= st.active < |urls| then st.active else 0
  }

  function Order(urls: seq<string>, st: State, now: int): (ordered: seq<string>)
    requires urls != []
    ensures ordered != []
  {
    Prioritized(urls, Current(urls, st), st.cooldowns, now)
  }

  function Request(urls: seq<string>, st: State, w: World, now: int): Trip
    requires urls != []
  {
    TryFrom(urls, Order(urls, st, now), 0, st.(active := Current(urls, st)), w)
  }

  lemma {:induction false} IndexOfIs(urls: seq<string>, url: string)
    ensures var i := IndexOf(urls, url);
            && (i < 0 <==> url !in urls)
            && (i >= 0 ==> i < |urls| && urls[i] == url && url !in urls[..i])
            && -1 <= i
  {
    if urls != [] {
      var t, l := urls[..|urls| - 1], urls[|urls| - 1];
      assert urls == t + [l];
      IndexOfIs(t, url);
      var i := IndexOf(t, url);
      if i >= 0 {
        assert urls[..i] == t[..i];
      }
    }
  }

  /** Errors that another endpoint may not meet: failed connections and the like, and server errors. */
  ghost predicate Transient(e: SyncError) {
    e.Other? || (e.RequestFailed? && 500 <= e.status <= 599)
  }

  lemma TransientIs(e: SyncError)
    ensures ShouldFailover(e) <==> Transient(e)
  {
  }

  /** Endpoint k of the order is the last one called: those before it failed in a way that allows
      failover, and it either answered or ended the request. */
  ghost predicate EndsAt(ordered: seq<string>, i: nat, k: nat, w: World) {
    && i <= k < |ordered|
    && (forall j :: i <= j < k ==> w.answer(ordered[j]).Some? && Transient(w.answer(ordered[j]).value))
    && (w.answer(ordered[k]).Some? ==> !Transient(w.answer(ordered[k]).value) || k + 1 == |ordered|)
  }

  lemma SucceededIsActive(urls: seq<string>, st: State, url: string)
    ensures var t := SetActive(urls, MarkSucceeded(st, url), IndexOf(urls, url));
            t.active == SetActive(urls, t, IndexOf(urls, url)).active && FailuresOf(t, url) == 0 && url !in t.cooldowns
  {
    hide IndexOf;
  }

  lemma {:induction false} TryEnds(urls: seq<string>, ordered: seq<string>, i: nat, st: State, w: World) returns (k: nat)
    requires i < |ordered| && Current(urls, st) == st.active
    ensures var t := TryFrom(urls, ordered, i, st, w);
            && EndsAt(ordered, i, k, w)
            && t.called == ordered[i..k + 1]
            && t.error == w.answer(ordered[k])
            && (t.error.None? ==> t.state.active == SetActive(urls, t.state, IndexOf(urls, ordered[k])).active
                                  && FailuresOf(t.state, ordered[k]) == 0 && ordered[k] !in t.state.cooldowns)
            && (t.error.Some? ==> t.state.active == st.active)
    decreases |ordered| - i
  {
    hide IndexOf, ShouldFailover, Transient;
    var url := ordered[i];
    var answer := w.answer(url);
    if answer.Some? {
      TransientIs(answer.value);
    }
    if answer.None? || !ShouldFailover(answer.value) || i + 1 == |ordered| {
      k := i;
      assert ordered[i..i + 1] == [url];
      SucceededIsActive(urls, st, url);
    } else {
      k := TryEnds(urls, ordered, i + 1, MarkFailed(st, url, w.at(url)), w);
      assert [url] + ordered[i + 1..k + 1] == ordered[i..k + 1];
    }
  }

  /** A request calls each endpoint at most once and stops at the first that answers or ends it. It
      succeeds exactly when some endpoint answers and all tried before it allow failover; that endpoint
      is then the active one, with its failures and its cooldown cleared. */
  lemma RequestStops(urls: seq<string>, st: State, w: World, now: int) returns (k: nat)
    requires urls != [] && Distinct(urls)
    ensures var ordered, t := Order(urls, st, now), Request(urls, st, w, now);
            && EndsAt(ordered, 0, k, w)
            && t.called == ordered[..k + 1] && Distinct(t.called) && (forall u :: u in t.called ==> u in urls)
            && t.error == w.answer(ordered[k])
            && 0 <= t.state.active < |urls|
            && (t.error.None? ==> urls[t.state.active] == ordered[k]
                                  && FailuresOf(t.state, ordered[k]) == 0 && ordered[k] !in t.state.cooldowns)
            && (t.error.Some? ==> t.state.active == if 0 <= st.active < |urls| then st.active else 0)
  {
    var ordered := Order(urls, st, now);
    var e := PrioritizedIsPermutation(urls, Current(urls, st), st.cooldowns, now);
    PermutationIsDistinct(ordered, urls);
    k := TryEnds(urls, ordered, 0, st.(active := Current(urls, st)), w);
    OrderMembers(urls, st, now);
    IndexOfIs(urls, ordered[k]);
  }

  lemma OrderMembers(urls: seq<string>, st: State, now: int)
    requires urls != []
    ensures forall u :: u in Order(urls, st, now) <==> u in urls
  {
    var e := PrioritizedIsPermutation(urls, Current(urls, st), st.cooldowns, now);
    forall u
      ensures u in Order(urls, st, now) <==> u in urls
    {
      assert u in multiset(Order(urls, st, now)) <==> u in multiset(urls);
    }
  }

  /** If every error there is to meet allows failover and some endpoint would answer, the request
      succeeds at the first such endpoint in the order. */
  lemma FailoverIsComplete(urls: seq<string>, st: State, w: World, now: int, good: string) returns (k: nat)
    requires Distinct(urls) && good in urls && w.answer(good).None?
    requires forall u :: u in urls && w.answer(u).Some? ==> Transient(w.answer(u).value)
    ensures var ordered, t := Order(urls, st, now), Request(urls, st, w, now);
            && t.error.None?
            && k < |ordered| && w.answer(ordered[k]).None? && (forall j :: 0 <= j < k ==> w.answer(ordered[j]).Some?)
            && 0 <= t.state.active < |urls| && urls[t.state.active] == ordered[k]
            && FailuresOf(t.state, ordered[k]) == 0 && ordered[k] !in t.state.cooldowns
  {
    k := RequestStops(urls, st, w, now);
    OrderMembers(urls, st, now);
    var ordered := Order(urls, st, now);
    assert ordered[k] in ordered;
    assert good in ordered;
  }

  // ---------- the state as a function of history ----------

  /** Failures of an endpoint since it last succeeded. */
  function Streak(events: seq<Event>, url: string): nat {
    if events == [] then 0
    else
      var e, before := events[|events| - 1], Streak(events[..|events| - 1], url);
      if e.url != url then before else if e.Failed? then before + 1 else 0
  }

  function LastFailure(events: seq<Event>, url: string): int {
    if events == [] then 0
    else
      var e := events[|events| - 1];
      if e.url == url && e.Failed? then e.at else LastFailure(events[..|events| - 1], url)
  }

  /** An endpoint is in cooldown exactly if it has failed since it last succeeded, and then for the
      cooldown of that many failures from the last one on. */
  predicate CoherentAt(st: State, events: seq<Event>, url: string) {
    var n := Streak(events, url);
    && FailuresOf(st, url) == n
    && (url in st.cooldowns <==> n > 0)
    && (url in st.cooldowns ==> st.cooldowns[url] == LastFailure(events, url) + Cooldown(n))
  }

  ghost predicate Coherent(st: State, events: seq<Event>) {
    forall url :: CoherentAt(st, events, url)
  }

  lemma MarksKeepCoherence(st: State, events: seq<Event>, e: Event)
    requires Coherent(st, events)
    ensures Coherent(if e.Failed? then MarkFailed(st, e.url, e.at) else MarkSucceeded(st, e.url), events + [e])
  {
    var st', events' := if e.Failed? then MarkFailed(st, e.url, e.at) else MarkSucceeded(st, e.url), events + [e];
    assert events'[..|events|] == events;
    forall url
      ensures CoherentAt(st', events', url)
    {
      assert CoherentAt(st, events, url);
    }
  }

  lemma {:induction false} TryKeepsCoherence(
      urls: seq<string>, ordered: seq<string>, i: nat, st: State, w: World, events: seq<Event>)
    requires i < |ordered| && Coherent(st, events)
    ensures var t := TryFrom(urls, ordered, i, st, w); Coherent(t.state, events + t.events)
    decreases |ordered| - i
  {
    var url := ordered[i];
    var answer := w.answer(url);
    var t := TryFrom(urls, ordered, i, st, w);
    if answer.None? {
      MarksKeepCoherence(st, events, Succeeded(url));
      forall u
        ensures CoherentAt(t.state, events + t.events, u)
      {
        assert CoherentAt(MarkSucceeded(st, url), events + [Succeeded(url)], u);
      }
    } else if !ShouldFailover(answer.value) || i + 1 == |ordered| {
      assert events + [] == events;
    } else {
      var failed := Failed(url, w.at(url));
      MarksKeepCoherence(st, events, failed);
      TryKeepsCoherence(urls, ordered, i + 1, MarkFailed(st, url, w.at(url)), w, events + [failed]);
      var rest := TryFrom(urls, ordered, i + 1, MarkFailed(st, url, w.at(url)), w);
      assert events + t.events == events + [failed] + rest.events;
    }
  }

  /** One request of a run: the world it meets and when it is made. */
  datatype Query = Query(world: World, now: int)

  const INITIAL := State(map[], map[], 0)

  /** The client after the first n requests, and all the marks made so far. */
  function After(urls: seq<string>, run: seq<Query>, n: nat): (State, seq<Event>)
    requires urls != [] && n <= |run|
  {
    if n == 0 then (INITIAL, [])
    else
      var (st, events) := After(urls, run, n - 1);
      var t := Request(urls, st, run[n - 1].world, run[n - 1].now);
      (t.state, events + t.events)
  }

  lemma InitialIsCoherent()
    ensures Coherent(INITIAL, [])
  {
  }

  /** In every reachable state the active endpoint is a configured one, and cooldowns and failure
      counts are what the history of marks says. */
  lemma {:induction false} ReachableIsCoherent(urls: seq<string>, run: seq<Query>, n: nat)
    requires urls != [] && Distinct(urls) && n <= |run|
    ensures 0 <= After(urls, run, n).0.active < |urls|
    ensures Coherent(After(urls, run, n).0, After(urls, run, n).1)
  {
    hide Order, Coherent, TryFrom;
    if n == 0 {
      InitialIsCoherent();
    } else {
      ReachableIsCoherent(urls, run, n - 1);
      var (st, events) := After(urls, run, n - 1);
      var q := run[n - 1];
      var k := RequestStops(urls, st, q.world, q.now);
      TryKeepsCoherence(urls, Order(urls, st, q.now), 0, st, q.world, events);
    }
  }

  // ---------- the client ----------

  class Client {
    const baseURLs: seq<string>
    var failuresByURL: map<string, int>
    var cooldownUntil: map<string, int>
    var activeIndex: int

    function Value(): State
      reads this
    {
      State(failuresByURL, cooldownUntil, activeIndex)
    }

    /** Without any base URL there is no client. */
    constructor (baseURL: string, more: seq<string>)
      requires BaseURLs([baseURL] + more) != []
      ensures baseURLs == BaseURLs([baseURL] + more) && Distinct(baseURLs) && Value() == INITIAL
    {
      var items := NormalizeBaseURLs([baseURL] + more);
      BaseURLsDistinct([baseURL] + more);
      baseURLs := items;
      failuresByURL, cooldownUntil, activeIndex := map[], map[], 0;
    }

    method PrioritizeEligibleEndpoints(start: nat, now: int) returns (ordered: seq<string>)
      requires start < |baseURLs|
      ensures ordered == Prioritized(baseURLs, start, cooldownUntil, now)
    {
      var eligible: seq<string>, held: seq<string> := [], [];
      var i := 0;
      while i < |baseURLs|
        invariant 0 <= i <= |baseURLs|
        invariant eligible == Select(baseURLs, start, i, cooldownUntil, now, true)
        invariant held == Select(baseURLs, start, i, cooldownUntil, now, false)
      {
        var item := baseURLs[(start + i) % |baseURLs|];
        if item !in cooldownUntil || now > cooldownUntil[item] || now == cooldownUntil[item] {
          eligible := eligible + [item];
        } else {
          held := held + [item];
        }
        i := i + 1;
      }
      if |eligible| > 0 {
        return eligible + held;
      }
      return baseURLs;
    }

    method MarkFailureAndSwitch(from: string, now: int)
      modifies this`failuresByURL, this`cooldownUntil
      ensures Value() == MarkFailed(old(Value()), from, now)
    {
      failuresByURL := failuresByURL[from := (if from in failuresByURL then failuresByURL[from] else 0) + 1];
      var cooldown := FailoverCooldown(failuresByURL[from]);
      cooldownUntil := cooldownUntil[from := now + cooldown];
    }

    method MarkSuccess(baseURL: string)
      modifies this`failuresByURL, this`cooldownUntil
      ensures Value() == MarkSucceeded(old(Value()), baseURL)
    {
      failuresByURL := failuresByURL[baseURL := 0];
      cooldownUntil := cooldownUntil - {baseURL};
    }

    method CurrentActiveIndex() returns (index: nat)
      requires baseURLs != []
      modifies this`activeIndex
      ensures index == Current(baseURLs, old(Value())) == activeIndex
    {
      if activeIndex < 0 || activeIndex >= |baseURLs| {
        activeIndex := 0;
      }
      return activeIndex;
    }

    method SetActiveIndex(index: int)
      modifies this`activeIndex
      ensures Value() == SetActive(baseURLs, old(Value()), index)
    {
      if index < 0 || index >= |baseURLs| {
        return;
      }
      activeIndex := index;
    }

    /** `w` answers for the endpoints and gives the clock readings after each failure. */
    method WithFailover(w: World, now: int) returns (error: Option<SyncError>, ghost called: seq<string>)
      requires baseURLs != []
      modifies this
      ensures var t := Request(baseURLs, old(Value()), w, now);
              Value() == t.state && error == t.error && called == t.called
    {
      hide TryFrom, Prioritized;
      ghost var t := Request(baseURLs, Value(), w, now);
      var start := CurrentActiveIndex();
      var ordered := PrioritizeEligibleEndpoints(start, now);
      SameOrderLength(start, now);
      called := [];
      var i := 0;
      while i < |ordered|
        invariant 0 <= i < |ordered|
        invariant TryFrom(baseURLs, ordered, i, Value(), w).state == t.state
        invariant TryFrom(baseURLs, ordered, i, Value(), w).error == t.error
        invariant called + TryFrom(baseURLs, ordered, i, Value(), w).called == t.called
      {
        called := called + [ordered[i]];
        var done, answer := TryOne(ordered, i, w);
        if done {
          return answer, called;
        }
        i := i + 1;
      }
    }

    /** One endpoint: done if it answers, if its error is final, or if it is the last one. */
    method TryOne(ordered: seq<string>, i: nat, w: World) returns (done: bool, answer: Option<SyncError>)
      requires i < |ordered| == |baseURLs|
      modifies this
      ensures var u := TryFrom(baseURLs, ordered, i, old(Value()), w);
              if done then u.state == Value() && u.error == answer && u.called == [ordered[i]]
              else
                && i + 1 < |ordered|
                && var v := TryFrom(baseURLs, ordered, i + 1, Value(), w);
                u.state == v.state && u.error == v.error && u.called == [ordered[i]] + v.called
    {
      var baseURL := ordered[i];
      answer := w.answer(baseURL);
      if answer.Some? {
        if !ShouldFailover(answer.value) || i == |baseURLs| - 1 {
          return true, answer;
        }
        MarkFailureAndSwitch(baseURL, w.at(baseURL));
        return false, answer;
      }
      MarkSuccess(baseURL);
      SetActiveIndex(IndexOf(baseURLs, baseURL));
      return true, None;
    }

    lemma SameOrderLength(start: nat, now: int)
      requires start < |baseURLs|
      ensures |Prioritized(baseURLs, start, cooldownUntil, now)| == |baseURLs|
    {
      var e := PrioritizedIsPermutation(baseURLs, start, cooldownUntil, now);
    }
  }
}
