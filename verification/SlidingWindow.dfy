/** The Redis sliding-window limiter: the Lua script over one sorted set and its key expiry.
    Timestamps are microseconds. */
module SlidingWindow {
  import opened Common

  const MICROS_PER_SECOND := 1_000_000
  const MICROS_PER_MILLI := 1_000

  datatype Entry = Entry(member: string, score: int)

  /** A sorted set in ZRANGE order, and when its key expires on the server's clock. */
  datatype Key = Key(entries: seq<Entry>, expireAt: Option<int>)

  const NO_KEY := Key([], None)

  /** One script call: the caller's timestamp, the member it would add, the server's clock. */
  datatype Call = Call(now: int, member: string, server: int)

  datatype Reply = Allowed(remaining: int) | Limited(retryAfter: real)

  // ---------- the Redis commands the script uses ----------

  /** A key whose time has come is gone before the script sees it. */
  function Expire(k: Key, server: int): Key {
    if k.expireAt.Some? && server >= k.expireAt.value then NO_KEY else k
  }

  /** ZREMRANGEBYSCORE key 0 hi */
  function RemoveUpTo(s: seq<Entry>, hi: int): seq<Entry> {
    if s == [] then []
    else (if 0 <= s[0].score <= hi then [] else [s[0]]) + RemoveUpTo(s[1..], hi)
  }

  function RemoveMember(s: seq<Entry>, member: string): seq<Entry> {
    if s == [] then []
    else (if s[0].member == member then [] else [s[0]]) + RemoveMember(s[1..], member)
  }

  function Insert(s: seq<Entry>, e: Entry): seq<Entry> {
    if s == [] || s[|s| - 1].score <= e.score then s + [e]
    else Insert(s[..|s| - 1], e) + [s[|s| - 1]]
  }

  /** ZADD: a member already present only changes its score. Entries of equal score stay in the order they
      were added; Redis orders them by member, which nothing below depends on. */
  function Add(s: seq<Entry>, e: Entry): seq<Entry> {
    Insert(RemoveMember(s, e.member), e)
  }

  function RetryAfter(live: seq<Entry>, micros: int, now: int): real {
    if live == [] then 0.0
    else
      var r := (live[0].score + micros - now) as real / MICROS_PER_SECOND as real;
      if r < 0.0 then 0.0 else r
  }

  /** The whole script, run atomically by the server. PEXPIRE reads its argument as
      milliseconds although the script passes the window in microseconds. */
  function Script(k: Key, window: int, maxRequests: int, c: Call): (Key, Reply) {
    var micros := window * MICROS_PER_SECOND;
    var key := Expire(k, c.server);
    var live := RemoveUpTo(key.entries, c.now - micros);
    if |live| >= maxRequests then
      (if live == [] then NO_KEY else Key(live, key.expireAt), Limited(RetryAfter(live, micros, c.now)))
    else
      (Key(Add(live, Entry(c.member, c.now)), Some(c.server + micros * MICROS_PER_MILLI)),
       Allowed(maxRequests - |live| - 1))
  }

  class RedisKey {
    var entries: seq<Entry>
    var expireAt: Option<int>

    constructor ()
      ensures Value() == NO_KEY
    {
      entries := [];
      expireAt := None;
    }

    function Value(): Key
      reads this
    {
      Key(entries, expireAt)
    }

    method Eval(window: int, maxRequests: int, c: Call) returns (reply: Reply)
      modifies this
      ensures Value() == Script(old(Value()), window, maxRequests, c).0
      ensures reply == Script(old(Value()), window, maxRequests, c).1
    {
      if expireAt.Some? && c.server >= expireAt.value {
        entries := [];
        expireAt := None;
      }
      var windowMicros := window * MICROS_PER_SECOND;
      entries := RemoveUpTo(entries, c.now - windowMicros);
      var count := |entries|;
      if count >= maxRequests {
        var retryAfter := 0.0;
        if count > 0 {
          retryAfter := (entries[0].score + windowMicros - c.now) as real / MICROS_PER_SECOND as real;
          if retryAfter < 0.0 {
            retryAfter := 0.0;
          }
        } else {
          expireAt := None;
        }
        return Limited(retryAfter);
      }
      entries := Add(entries, Entry(c.member, c.now));
      expireAt := Some(c.server + windowMicros * MICROS_PER_MILLI);
      return Allowed(maxRequests - count - 1);
    }
  }

  // ---------- whole runs on one key ----------

  /** A run: the calls, the key before each of them and after the last, and the replies. */
  datatype Run = Run(calls: seq<Call>, keys: seq<Key>, replies: seq<Reply>)

  predicate StepAt(r: Run, window: int, maxRequests: int, i: nat)
    requires i < |r.calls| && |r.keys| == |r.calls| + 1 && |r.replies| == |r.calls|
  {
    (r.keys[i + 1], r.replies[i]) == Script(r.keys[i], window, maxRequests, r.calls[i])
  }

  /** What two calls i <= j of one run may assume of their callers: nonnegative, nondecreasing
      timestamps, and clocks that agree at least this far: a thousand windows on the server's clock are no
      less than one window on the callers'. Members may repeat. */
  predicate InOrder(r: Run, window: int, i: nat, j: nat)
    requires i <= j < |r.calls|
  {
    var a, b := r.calls[i], r.calls[j];
    && 0 <= a.now <= b.now
    && (i < j && b.server - a.server >= window * MICROS_PER_SECOND * MICROS_PER_MILLI ==>
          b.now - a.now >= window * MICROS_PER_SECOND)
  }

  ghost predicate Valid(r: Run, window: int, maxRequests: int) {
    && window > 0
    && |r.keys| == |r.calls| + 1 && |r.replies| == |r.calls|
    && r.keys[0] == NO_KEY
    && (forall i: nat {:trigger StepAt(r, window, maxRequests, i)} ::
          i < |r.calls| ==> StepAt(r, window, maxRequests, i))
    && (forall i: nat, j: nat {:trigger InOrder(r, window, i, j)} ::
          i <= j < |r.calls| ==> InOrder(r, window, i, j))
  }

  /** Of the admitted calls before call n whose timestamp is after lo, the latest of each member, oldest
      first. */
  function LatestAfter(r: Run, lo: int, n: nat): seq<Entry>
    requires n <= |r.calls| == |r.replies|
  {
    if n == 0 then []
    else
      var c, before := r.calls[n - 1], LatestAfter(r, lo, n - 1);
      if r.replies[n - 1].Allowed? && c.now > lo then RemoveMember(before, c.member) + [Entry(c.member, c.now)]
      else before
  }

  /** How many of the first n calls with lo < timestamp <= hi are admitted. */
  function AdmittedIn(r: Run, lo: int, hi: int, n: nat): nat
    requires n <= |r.calls| == |r.replies|
  {
    if n == 0 then 0
    else AdmittedIn(r, lo, hi, n - 1) + if r.replies[n - 1].Allowed? && lo < r.calls[n - 1].now <= hi then 1 else 0
  }

  /** Where the window of call n begins; timestamps up to here are outside it. */
  function WindowStart(r: Run, window: int, n: nat): int
    requires n < |r.calls|
  {
    r.calls[n].now - window * 1_000_000
  }

  lemma {:induction false} RemoveUpToAppend(s: seq<Entry>, t: seq<Entry>, hi: int)
    ensures RemoveUpTo(s + t, hi) == RemoveUpTo(s, hi) + RemoveUpTo(t, hi)
  {
    if s == [] {
      assert s + t == t;
    } else {
      assert (s + t)[1..] == s[1..] + t;
      RemoveUpToAppend(s[1..], t, hi);
    }
  }

  lemma {:induction false} RemoveUpToShrinks(s: seq<Entry>, hi: int)
    ensures |RemoveUpTo(s, hi)| <= |s|
    ensures (forall i :: 0 <= i < |s| ==> s[i].score > hi) ==> RemoveUpTo(s, hi) == s
    ensures s != [] && 0 <= s[0].score <= hi ==> |RemoveUpTo(s, hi)| < |s|
  {
    if s != [] {
      assert s == [s[0]] + s[1..];
      RemoveUpToShrinks(s[1..], hi);
    }
  }

  lemma {:induction false} RemoveMemberAbsent(s: seq<Entry>, member: string)
    requires forall i :: 0 <= i < |s| ==> s[i].member != member
    ensures RemoveMember(s, member) == s
  {
    if s != [] {
      assert s == [s[0]] + s[1..];
      RemoveMemberAbsent(s[1..], member);
    }
  }

  lemma {:induction false} RemovalsCommute(s: seq<Entry>, member: string, hi: int)
    ensures RemoveUpTo(RemoveMember(s, member), hi) == RemoveMember(RemoveUpTo(s, hi), member)
  {
    if s != [] {
      RemovalsCommute(s[1..], member, hi);
      var e, rest := s[0], RemoveMember(s[1..], member);
      var kept := RemoveUpTo(s[1..], hi);
      RemoveUpToHead(e, rest, hi);
      RemoveMemberHead(e, kept, member);
      assert [] + rest == rest && [] + kept == kept && [] + RemoveMember(kept, member) == RemoveMember(kept, member);
    }
  }

  lemma RemoveUpToHead(e: Entry, s: seq<Entry>, hi: int)
    ensures RemoveUpTo([e] + s, hi) == (if 0 <= e.score <= hi then [] else [e]) + RemoveUpTo(s, hi)
  {
    assert ([e] + s)[1..] == s;
  }

  lemma RemoveMemberHead(e: Entry, s: seq<Entry>, member: string)
    ensures RemoveMember([e] + s, member) == (if e.member == member then [] else [e]) + RemoveMember(s, member)
  {
    assert ([e] + s)[1..] == s;
  }

  /** Nothing is later than the clock. */
  lemma {:induction false} NothingLater(r: Run, window: int, maxRequests: int, hi: int, n: nat, m: nat)
    requires Valid(r, window, maxRequests) && n <= m < |r.calls| && r.calls[m].now <= hi
    ensures LatestAfter(r, hi, n) == []
  {
    if n > 0 {
      NothingLater(r, window, maxRequests, hi, n - 1, m);
      assert InOrder(r, window, n - 1, m);
    }
  }

  lemma RaisedOneMore(s: seq<Entry>, e: Entry, hi: int)
    requires e.score >= 0 && (e.score <= hi ==> RemoveUpTo(s, hi) == [])
    ensures RemoveUpTo(RemoveMember(s, e.member) + [e], hi)
            == if e.score <= hi then [] else RemoveMember(RemoveUpTo(s, hi), e.member) + [e]
  {
    RemoveUpToAppend(RemoveMember(s, e.member), [e], hi);
    RemovalsCommute(s, e.member, hi);
    assert [e][1..] == [];
    assert RemoveMember([], e.member) == [];
  }

  /** Raising the lower limit is what the removal command does. */
  lemma {:induction false} RemovalRaisesLimit(r: Run, window: int, maxRequests: int, lo: int, hi: int, n: nat)
    requires Valid(r, window, maxRequests) && n <= |r.calls| && lo <= hi
    ensures RemoveUpTo(LatestAfter(r, lo, n), hi) == LatestAfter(r, hi, n)
  {
    hide RemoveUpTo, RemoveMember;
    if n == 0 {
      NothingToRemove(hi);
    } else {
      var c := r.calls[n - 1];
      RemovalRaisesLimit(r, window, maxRequests, lo, hi, n - 1);
      assert InOrder(r, window, n - 1, n - 1);
      if c.now <= hi {
        NothingLater(r, window, maxRequests, hi, n - 1, n - 1);
      }
      if r.replies[n - 1].Allowed? && c.now > lo {
        RaisedOneMore(LatestAfter(r, lo, n - 1), Entry(c.member, c.now), hi);
      }
    }
  }

  lemma NothingToRemove(hi: int)
    ensures RemoveUpTo([], hi) == []
  {
  }

  /** Entries in order of time, all after lo and none later than now. */
  predicate OlderThan(a: seq<Entry>, lo: int, now: int) {
    forall i :: 0 <= i < |a| ==> 0 <= a[0].score <= a[i].score && lo < a[i].score <= now
  }

  ghost predicate Ascending(a: seq<Entry>) {
    forall i, j :: 0 <= i < j < |a| ==> a[i].score <= a[j].score
  }

  /** Removing a member keeps all others, in order. */
  lemma {:induction false} RemoveMemberKeeps(s: seq<Entry>, member: string)
    ensures |RemoveMember(s, member)| <= |s|
    ensures forall e :: e in RemoveMember(s, member) <==> e in s && e.member != member
  {
    if s != [] {
      RemoveMemberKeeps(s[1..], member);
      assert s == [s[0]] + s[1..];
    }
  }

  lemma {:induction false} RemoveMemberAscends(s: seq<Entry>, member: string)
    requires Ascending(s)
    ensures Ascending(RemoveMember(s, member))
  {
    if s != [] {
      var rest := RemoveMember(s[1..], member);
      RemoveMemberAscends(s[1..], member);
      RemoveMemberKeeps(s[1..], member);
      forall j | 0 <= j < |rest|
        ensures s[0].score <= rest[j].score
      {
        assert rest[j] in s[1..];
      }
    }
  }

  lemma AscendsAtEnd(s: seq<Entry>, e: Entry)
    requires Ascending(s) && forall x :: x in s ==> x.score <= e.score
    ensures Ascending(s + [e])
  {
    forall j | 0 <= j < |s|
      ensures s[j].score <= e.score
    {
      assert s[j] in s;
    }
  }

  lemma {:induction false} EntriesAreOlder(r: Run, window: int, maxRequests: int, lo: int, n: nat, m: nat)
    requires Valid(r, window, maxRequests) && n <= m < |r.calls|
    ensures Ascending(LatestAfter(r, lo, n))
    ensures forall e :: e in LatestAfter(r, lo, n) ==> lo < e.score <= r.calls[m].now && e.score >= 0
  {
    hide RemoveMember, Ascending;
    if n == 0 {
      NothingAscends();
    } else {
      var older, c := LatestAfter(r, lo, n - 1), r.calls[n - 1];
      EntriesAreOlder(r, window, maxRequests, lo, n - 1, n - 1);
      assert InOrder(r, window, n - 1, m);
      RemoveMemberKeeps(older, c.member);
      RemoveMemberAscends(older, c.member);
      AscendsAtEnd(RemoveMember(older, c.member), Entry(c.member, c.now));
    }
  }

  lemma NothingAscends()
    ensures Ascending([])
  {
  }

  lemma WindowIsOlder(r: Run, window: int, maxRequests: int, lo: int, n: nat)
    requires Valid(r, window, maxRequests) && n < |r.calls|
    ensures OlderThan(LatestAfter(r, lo, n), lo, r.calls[n].now)
  {
    var s := LatestAfter(r, lo, n);
    EntriesAreOlder(r, window, maxRequests, lo, n, n);
    forall i | 0 <= i < |s|
      ensures 0 <= s[0].score <= s[i].score && lo < s[i].score <= r.calls[n].now
    {
      assert s[0] in s && s[i] in s;
    }
  }

  /** Call j is the last admitted one before call n. */
  predicate LastAdmitted(r: Run, j: nat, n: nat)
    requires n <= |r.replies|
  {
    j < n && r.replies[j].Allowed? && forall i :: j < i < n ==> r.replies[i].Limited?
  }

  lemma {:induction false} NothingAfter(r: Run, window: int, maxRequests: int, lo: int, j: nat, n: nat, m: nat)
    requires Valid(r, window, maxRequests) && m <= n <= |r.calls|
    requires LastAdmitted(r, j, n) && r.calls[j].now <= lo
    ensures LatestAfter(r, lo, m) == []
    decreases m
  {
    if m > 0 {
      NothingAfter(r, window, maxRequests, lo, j, n, m - 1);
      if m - 1 <= j {
        assert InOrder(r, window, m - 1, j);
      }
    }
  }

  /** A call leaves behind exactly the latest admitted call of each member in its window, under a key that
      expires a thousand windows after the last of them. */
  ghost predicate Exact(r: Run, window: int, n: nat)
    requires n <= |r.calls| == |r.replies| && |r.keys| == |r.calls| + 1
  {
    var k := r.keys[n];
    && k.entries == (if n == 0 then [] else LatestAfter(r, WindowStart(r, window, n - 1), n))
    && (k.entries == [] ==> k.expireAt.None?)
    && (k.entries != [] ==>
          exists j: nat :: LastAdmitted(r, j, n) && ExpiryOf(r, window, j) == k.expireAt)
  }

  function ExpiryOf(r: Run, window: int, j: nat): Option<int>
    requires j < |r.calls|
  {
    Some(r.calls[j].server + window * MICROS_PER_SECOND * MICROS_PER_MILLI)
  }

  /** What call n counts after its removal command. */
  function Live(r: Run, window: int, n: nat): seq<Entry>
    requires n < |r.calls| < |r.keys|
  {
    RemoveUpTo(Expire(r.keys[n], r.calls[n].server).entries, WindowStart(r, window, n))
  }

  /** Key expiry never drops a live entry: a call counts its whole window, expired key or not. */
  lemma LiveIsWindow(r: Run, window: int, maxRequests: int, n: nat)
    requires Valid(r, window, maxRequests) && n < |r.calls| && Exact(r, window, n)
    ensures Live(r, window, n) == LatestAfter(r, WindowStart(r, window, n), n)
  {
    if n > 0 {
      var k, cut := r.keys[n], WindowStart(r, window, n);
      assert InOrder(r, window, n - 1, n);
      RemovalRaisesLimit(r, window, maxRequests, WindowStart(r, window, n - 1), cut, n);
      if k.entries != [] {
        var j: nat :| LastAdmitted(r, j, n) && ExpiryOf(r, window, j) == k.expireAt;
        assert InOrder(r, window, j, n);
        if Expire(k, r.calls[n].server) == NO_KEY {
          NothingAfter(r, window, maxRequests, cut, j, n, n);
        }
      }
    }
  }

  /** The script's two outcomes, in terms of what it counted. */
  lemma Outcomes(r: Run, window: int, maxRequests: int, n: nat)
    requires Valid(r, window, maxRequests) && n < |r.calls|
    ensures var live, k, reply := Live(r, window, n), r.keys[n + 1], r.replies[n];
            && (reply.Limited? <==> |live| >= maxRequests)
            && (reply.Limited? ==>
                  && k == (if live == [] then NO_KEY else Key(live, r.keys[n].expireAt))
                  && reply.retryAfter == RetryAfter(live, window * MICROS_PER_SECOND, r.calls[n].now))
            && (reply.Allowed? ==>
                  && k == Key(Add(live, Entry(r.calls[n].member, r.calls[n].now)), ExpiryOf(r, window, n))
                  && reply.remaining == maxRequests - |live| - 1)
  {
    assert StepAt(r, window, maxRequests, n);
  }

  lemma AddAtEnd(live: seq<Entry>, lo: int, e: Entry)
    requires OlderThan(live, lo, e.score)
    ensures Add(live, e) == RemoveMember(live, e.member) + [e]
  {
    var kept := RemoveMember(live, e.member);
    RemoveMemberKeeps(live, e.member);
    if kept != [] {
      assert kept[|kept| - 1] in live;
    }
  }

  lemma ExactAfterAllowed(r: Run, window: int, maxRequests: int, n: nat)
    requires Valid(r, window, maxRequests) && n < |r.calls| && r.replies[n].Allowed?
    requires Live(r, window, n) == LatestAfter(r, WindowStart(r, window, n), n)
    ensures Exact(r, window, n + 1)
    ensures var c := r.calls[n];
            r.keys[n + 1].entries == RemoveMember(Live(r, window, n), c.member) + [Entry(c.member, c.now)]
  {
    Outcomes(r, window, maxRequests, n);
    WindowIsOlder(r, window, maxRequests, WindowStart(r, window, n), n);
    AddAtEnd(Live(r, window, n), WindowStart(r, window, n), Entry(r.calls[n].member, r.calls[n].now));
    assert LastAdmitted(r, n, n + 1);
  }

  lemma ExactAfterLimited(r: Run, window: int, maxRequests: int, n: nat)
    requires Valid(r, window, maxRequests) && n < |r.calls| && r.replies[n].Limited?
    requires Exact(r, window, n)
    requires Live(r, window, n) == LatestAfter(r, WindowStart(r, window, n), n)
    ensures Exact(r, window, n + 1)
    ensures r.keys[n + 1].entries == Live(r, window, n)
  {
    Outcomes(r, window, maxRequests, n);
    if Live(r, window, n) != [] {
      RemoveUpToShrinks(r.keys[n].entries, WindowStart(r, window, n));
      var j: nat :| LastAdmitted(r, j, n) && ExpiryOf(r, window, j) == r.keys[n].expireAt;
      assert LastAdmitted(r, j, n + 1);
    }
  }

  lemma ExactStep(r: Run, window: int, maxRequests: int, n: nat)
    requires Valid(r, window, maxRequests) && n < |r.calls| && Exact(r, window, n)
    ensures Exact(r, window, n + 1)
  {
    hide Exact, Live, LatestAfter;
    LiveIsWindow(r, window, maxRequests, n);
    if r.replies[n].Allowed? {
      ExactAfterAllowed(r, window, maxRequests, n);
    } else {
      ExactAfterLimited(r, window, maxRequests, n);
    }
  }

  lemma ExactAtStart(r: Run, window: int, maxRequests: int)
    requires Valid(r, window, maxRequests)
    ensures Exact(r, window, 0)
  {
  }

  /** Over every run the set holds exactly the window's admissions, of each member the latest. */
  lemma {:induction false} ScriptIsExact(r: Run, window: int, maxRequests: int, n: nat)
    requires Valid(r, window, maxRequests) && n <= |r.calls|
    ensures Exact(r, window, n)
    ensures n < |r.calls| ==> Live(r, window, n) == LatestAfter(r, WindowStart(r, window, n), n)
  {
    hide Exact, Live, LatestAfter;
    if n == 0 {
      ExactAtStart(r, window, maxRequests);
    } else {
      ScriptIsExact(r, window, maxRequests, n - 1);
      ExactStep(r, window, maxRequests, n - 1);
    }
    if n < |r.calls| {
      LiveIsWindow(r, window, maxRequests, n);
    }
  }

  /** A call is refused exactly when its window is already full. */
  lemma RefusedExactlyWhenFull(r: Run, window: int, maxRequests: int, n: nat)
    requires Valid(r, window, maxRequests) && n < |r.calls|
    ensures r.replies[n].Limited? <==> |LatestAfter(r, WindowStart(r, window, n), n)| >= maxRequests
  {
    ScriptIsExact(r, window, maxRequests, n);
    Outcomes(r, window, maxRequests, n);
  }

  /** What a call is told: how many more the window takes, or the seconds until its oldest entry leaves; and after an
      admission the key lives for a thousand windows. */
  lemma RepliesAre(r: Run, window: int, maxRequests: int, n: nat)
    requires Valid(r, window, maxRequests) && n < |r.calls|
    ensures var c, live, reply := r.calls[n], LatestAfter(r, WindowStart(r, window, n), n), r.replies[n];
            && (reply.Allowed? ==> reply.remaining == maxRequests - |live| - 1)
            && (reply.Allowed? ==> r.keys[n + 1].expireAt == Some(c.server + window * 1_000_000_000))
            && (reply.Limited? ==> reply.retryAfter * 1_000_000.0 ==
                                   if live == [] then 0.0 else (live[0].score + window * 1_000_000 - c.now) as real)
  {
    hide RemoveUpTo, Add, RetryAfter, LatestAfter;
    ScriptIsExact(r, window, maxRequests, n);
    Outcomes(r, window, maxRequests, n);
    var live := LatestAfter(r, WindowStart(r, window, n), n);
    if r.replies[n].Limited? && live != [] {
      WindowIsOlder(r, window, maxRequests, WindowStart(r, window, n), n);
      RetryAfterInMicros(live, window * MICROS_PER_SECOND, r.calls[n].now);
    } else {
      NothingToWaitFor(window * MICROS_PER_SECOND, r.calls[n].now);
    }
  }

  lemma NothingToWaitFor(micros: int, now: int)
    ensures RetryAfter([], micros, now) == 0.0
  {
  }

  /** The members of the admitted calls among the first n with lo < timestamp <= hi. */
  ghost function MembersIn(r: Run, lo: int, hi: int, n: nat): set<string>
    requires n <= |r.calls| == |r.replies|
  {
    set i | 0 <= i < n && r.replies[i].Allowed? && lo < r.calls[i].now <= hi :: r.calls[i].member
  }

  /** How many of them came under a member already there, and so only moved its entry. */
  ghost function OverwritesIn(r: Run, lo: int, hi: int, n: nat): nat
    requires n <= |r.calls| == |r.replies|
  {
    if n == 0 then 0
    else
      var c := r.calls[n - 1];
      OverwritesIn(r, lo, hi, n - 1) +
      if r.replies[n - 1].Allowed? && lo < c.now <= hi && c.member in MembersIn(r, lo, hi, n - 1) then 1 else 0
  }

  lemma MembersOneMore(r: Run, lo: int, hi: int, n: nat)
    requires n < |r.calls| == |r.replies|
    ensures MembersIn(r, lo, hi, n + 1) == MembersIn(r, lo, hi, n) +
            if r.replies[n].Allowed? && lo < r.calls[n].now <= hi then {r.calls[n].member} else {}
  {
  }

  /** Every admission brings a new member or overwrites one. */
  lemma {:induction false} AdmissionsAreMembersAndOverwrites(r: Run, lo: int, hi: int, n: nat)
    requires n <= |r.calls| == |r.replies|
    ensures AdmittedIn(r, lo, hi, n) == |MembersIn(r, lo, hi, n)| + OverwritesIn(r, lo, hi, n)
  {
    hide MembersIn;
    if n == 0 {
      NoMembersYet(r, lo, hi);
    } else {
      AdmissionsAreMembersAndOverwrites(r, lo, hi, n - 1);
      MembersOneMore(r, lo, hi, n - 1);
      OneMoreOrSame(MembersIn(r, lo, hi, n - 1), r.calls[n - 1].member);
    }
  }

  lemma NoMembersYet(r: Run, lo: int, hi: int)
    requires |r.calls| == |r.replies|
    ensures MembersIn(r, lo, hi, 0) == {}
  {
  }

  lemma OneMoreOrSame(s: set<string>, m: string)
    ensures |s + {m}| == |s| + if m in s then 0 else 1
    ensures s + {} == s
  {
    assert m in s ==> s + {m} == s;
  }

  ghost function MembersOf(s: seq<Entry>): set<string> {
    set e | e in s :: e.member
  }

  lemma {:induction false} NoMoreMembers(s: seq<Entry>)
    ensures |MembersOf(s)| <= |s|
  {
    if s != [] {
      var rest := s[..|s| - 1];
      NoMoreMembers(rest);
      assert s == rest + [s[|s| - 1]];
      assert MembersOf(s) == MembersOf(rest) + {s[|s| - 1].member};
    }
  }

  lemma MembersAfterMove(s: seq<Entry>, e: Entry)
    ensures MembersOf(RemoveMember(s, e.member) + [e]) == MembersOf(s) + {e.member}
  {
    var all := RemoveMember(s, e.member) + [e];
    RemoveMemberKeeps(s, e.member);
    assert e in all && forall x :: x in all <==> x in RemoveMember(s, e.member) || x == e;
    forall m | m in MembersOf(s) && m != e.member
      ensures m in MembersOf(all)
    {
      var x :| x in s && x.member == m;
      assert x in all;
    }
  }

  lemma {:induction false} LatestHasMembers(r: Run, lo: int, lo': int, hi: int, n: nat)
    requires n <= |r.calls| == |r.replies| && lo' <= lo
    ensures MembersIn(r, lo, hi, n) <= MembersOf(LatestAfter(r, lo', n))
  {
    hide MembersOf, RemoveMember;
    if n == 0 {
      NoMembersYet(r, lo, hi);
    } else {
      var c := r.calls[n - 1];
      LatestHasMembers(r, lo, lo', hi, n - 1);
      MembersOneMore(r, lo, hi, n - 1);
      hide MembersIn;
      MembersAfterMove(LatestAfter(r, lo', n - 1), Entry(c.member, c.now));
    }
  }

  lemma SmallerSet(a: set<string>, b: set<string>)
    requires a <= b
    ensures |a| <= |b|
  {
    assert b == a + (b - a);
  }

  /** Every half-open interval of the window's length holds at most maxRequests members. So it holds more
      admissions than that by overwriting only, and by exactly as many as maxRequests is exceeded by
      members and overwrites together. */
  lemma {:induction false} WindowBound(r: Run, window: int, maxRequests: nat, lo: int, n: nat)
    requires Valid(r, window, maxRequests) && n <= |r.calls|
    ensures var hi := lo + window * MICROS_PER_SECOND;
            && |MembersIn(r, lo, hi, n)| <= maxRequests
            && AdmittedIn(r, lo, hi, n) <= maxRequests + OverwritesIn(r, lo, hi, n)
  {
    var hi := lo + window * MICROS_PER_SECOND;
    AdmissionsAreMembersAndOverwrites(r, lo, hi, n);
    if n == 0 {
      NoMembersYet(r, lo, hi);
    } else {
      var p := n - 1;
      WindowBound(r, window, maxRequests, lo, p);
      MembersOneMore(r, lo, hi, p);
      hide MembersIn, MembersOf, LatestAfter;
      if r.replies[p].Allowed? && lo < r.calls[p].now <= hi {
        RefusedExactlyWhenFull(r, window, maxRequests, p);
        LatestHasMembers(r, lo, WindowStart(r, window, p), hi, p);
        NoMoreMembers(LatestAfter(r, WindowStart(r, window, p), p));
        SmallerSet(MembersIn(r, lo, hi, p), MembersOf(LatestAfter(r, WindowStart(r, window, p), p)));
      }
    }
  }

  lemma {:induction false} FreshMembersNeverOverwrite(r: Run, lo: int, hi: int, n: nat)
    requires n <= |r.calls| == |r.replies|
    requires forall i, j :: 0 <= i < j < n ==> r.calls[i].member != r.calls[j].member
    ensures OverwritesIn(r, lo, hi, n) == 0
  {
    if n > 0 {
      FreshMembersNeverOverwrite(r, lo, hi, n - 1);
    }
  }

  /** As long as no member repeats, every half-open interval of the window's length holds at most
      maxRequests admissions. */
  lemma FreshMembersBound(r: Run, window: int, maxRequests: nat, lo: int, n: nat)
    requires Valid(r, window, maxRequests) && n <= |r.calls|
    requires forall i, j :: 0 <= i < j < n ==> r.calls[i].member != r.calls[j].member
    ensures AdmittedIn(r, lo, lo + window * MICROS_PER_SECOND, n) <= maxRequests
  {
    WindowBound(r, window, maxRequests, lo, n);
    FreshMembersNeverOverwrite(r, lo, lo + window * MICROS_PER_SECOND, n);
  }

  lemma NotOverfullAfter(r: Run, window: int, maxRequests: nat, n: nat)
    requires Valid(r, window, maxRequests) && n < |r.calls| && |r.keys[n].entries| <= maxRequests
    ensures |r.keys[n + 1].entries| <= maxRequests
  {
    hide Exact, LatestAfter, RemoveMember;
    ScriptIsExact(r, window, maxRequests, n);
    Outcomes(r, window, maxRequests, n);
    if r.replies[n].Allowed? {
      hide Live;
      ExactAfterAllowed(r, window, maxRequests, n);
      RemoveMemberKeeps(Live(r, window, n), r.calls[n].member);
    } else {
      ExactAfterLimited(r, window, maxRequests, n);
      RemoveUpToShrinks(r.keys[n].entries, WindowStart(r, window, n));
    }
  }

  lemma {:induction false} NeverOverfull(r: Run, window: int, maxRequests: nat, n: nat)
    requires Valid(r, window, maxRequests) && n <= |r.calls|
    ensures |r.keys[n].entries| <= maxRequests
  {
    if n > 0 {
      NeverOverfull(r, window, maxRequests, n - 1);
      NotOverfullAfter(r, window, maxRequests, n - 1);
    }
  }

  lemma WindowsAdvance(r: Run, window: int, maxRequests: int, n: nat)
    requires Valid(r, window, maxRequests) && n + 1 < |r.calls|
    ensures WindowStart(r, window, n) <= WindowStart(r, window, n + 1)
  {
    assert InOrder(r, window, n, n + 1);
  }

  lemma RefusedNotCounted(r: Run, lo: int, n: nat)
    requires n < |r.calls| == |r.replies| && !r.replies[n].Allowed?
    ensures LatestAfter(r, lo, n + 1) == LatestAfter(r, lo, n)
  {
  }

  /** After a refusal the next call starts from what the refused one counted, a full window of it. */
  lemma RefusedIsFull(r: Run, window: int, maxRequests: nat, n: nat)
    requires Valid(r, window, maxRequests) && n + 1 < |r.calls|
    requires r.replies[n].Limited?
    ensures |Live(r, window, n)| == maxRequests
    ensures r.replies[n + 1].Allowed? <==> |RemoveUpTo(Live(r, window, n), WindowStart(r, window, n + 1))| < maxRequests
  {
    var cut, next := WindowStart(r, window, n), WindowStart(r, window, n + 1);
    hide Exact, Live, LatestAfter, RemoveUpTo, WindowStart, InOrder, StepAt;
    WindowsAdvance(r, window, maxRequests, n);
    RefusedNotCounted(r, cut, n);
    ScriptIsExact(r, window, maxRequests, n);
    ExactAfterLimited(r, window, maxRequests, n);
    RefusedExactlyWhenFull(r, window, maxRequests, n);
    NeverOverfull(r, window, maxRequests, n + 1);
    RemovalRaisesLimit(r, window, maxRequests, cut, next, n + 1);
    RefusedExactlyWhenFull(r, window, maxRequests, n + 1);
  }

  /** After a refusal the next call is admitted exactly when the oldest counted entry has left. */
  lemma SlotFreesWithOldest(r: Run, window: int, maxRequests: nat, n: nat)
    requires Valid(r, window, maxRequests) && n + 1 < |r.calls| && maxRequests > 0
    requires r.replies[n].Limited?
    ensures Live(r, window, n) != [] && Live(r, window, n)[0].score > WindowStart(r, window, n)
    ensures r.replies[n + 1].Allowed? <==> Live(r, window, n)[0].score <= WindowStart(r, window, n + 1)
  {
    RefusedIsFull(r, window, maxRequests, n);
    ScriptIsExact(r, window, maxRequests, n);
    WindowIsOlder(r, window, maxRequests, WindowStart(r, window, n), n);
    RemoveUpToShrinks(Live(r, window, n), WindowStart(r, window, n + 1));
  }

  /** The retry-after a refused call computes is the first moment a slot frees: with no call in
      between, the next one is admitted exactly when it comes no earlier than that. */
  lemma RetryAfterIsExact(r: Run, window: int, maxRequests: nat, n: nat)
    requires Valid(r, window, maxRequests) && n + 1 < |r.calls| && maxRequests > 0
    requires r.replies[n].Limited?
    ensures r.replies[n + 1].Allowed?
            <==> (r.calls[n + 1].now - r.calls[n].now) as real
                 >= r.replies[n].retryAfter * MICROS_PER_SECOND as real
  {
    SlotFreesWithOldest(r, window, maxRequests, n);
    Outcomes(r, window, maxRequests, n);
    RetryAfterInMicros(Live(r, window, n), window * MICROS_PER_SECOND, r.calls[n].now);
  }

  lemma RetryAfterInMicros(live: seq<Entry>, micros: int, now: int)
    requires live != [] && live[0].score > now - micros
    ensures RetryAfter(live, micros, now) * MICROS_PER_SECOND as real == (live[0].score + micros - now) as real
  {
  }

  lemma {:induction false} RemoveOnlyMember(s: seq<Entry>, member: string)
    requires forall e :: e in s ==> e.member == member
    ensures RemoveMember(s, member) == []
  {
    if s != [] {
      assert s[0] in s && forall e :: e in s[1..] ==> e in s;
      RemoveOnlyMember(s[1..], member);
    }
  }

  lemma {:induction false} OneMemberOneEntry(r: Run, lo: int, member: string, n: nat)
    requires n <= |r.calls| == |r.replies| && forall i :: 0 <= i < n ==> r.calls[i].member == member
    ensures |LatestAfter(r, lo, n)| <= 1 && forall e :: e in LatestAfter(r, lo, n) ==> e.member == member
  {
    if n > 0 {
      OneMemberOneEntry(r, lo, member, n - 1);
      RemoveOnlyMember(LatestAfter(r, lo, n - 1), member);
    }
  }

  /** Without fresh members there is no bound at all: calls whose timestamps print alike, with the same random
      part, have one member, and however many they are, none is refused by a limit above one. */
  lemma RepeatedMemberBreaksBound(r: Run, window: int, maxRequests: nat, n: nat)
    requires Valid(r, window, maxRequests) && n < |r.calls| && maxRequests > 1
    requires forall i, j :: 0 <= i < j < |r.calls| ==> r.calls[i].member == r.calls[j].member
    ensures r.replies[n].Allowed?
  {
    RefusedExactlyWhenFull(r, window, maxRequests, n);
    OneMemberOneEntry(r, WindowStart(r, window, n), r.calls[n].member, n);
  }
}
