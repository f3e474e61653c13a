/** The standalone token-bucket backend with its stale-entry cleanup. Rate and burst arrive with
    each call; times are seconds. */
module LocalBackend {
  import opened Common

  datatype Bucket = Bucket(
    tokens: real,
    last: real,
    violationCount: int,
    violationStart: Option<real>,
    blockedUntil: Option<real>)

  datatype Reply = Reply(allowed: bool, retryAfter: real)

  /** The rate and burst of one run. */
  datatype Limits = Limits(rate: real, burst: int)

  // ---------- one call ----------

  function Entering(s: Option<Bucket>, lim: Limits, created: real): Bucket {
    s.GetOr(Bucket(lim.burst as real, created, 0, None, None))
  }

  predicate HeldAt(b: Bucket, now: real) {
    b.blockedUntil.Some? && now < b.blockedUntil.value
  }

  function Unblocked(b: Bucket): Bucket {
    if b.blockedUntil.Some? then b.(blockedUntil := None, violationCount := 0) else b
  }

  function Gain(lim: Limits, elapsed: real): real {
    elapsed * lim.rate
  }

  function Step(b: Bucket, lim: Limits, now: real): (Bucket, Reply)
    requires lim.rate > 0.0
  {
    if HeldAt(b, now) then (b, Reply(false, b.blockedUntil.value - now))
    else
      var u := Unblocked(b);
      var tokens := MinReal(lim.burst as real, u.tokens + Gain(lim, now - u.last));
      if tokens >= 1.0 then (u.(tokens := tokens - 1.0, last := now), Reply(true, 0.0))
      else (u.(tokens := tokens, last := now, violationCount := u.violationCount + 1,
               violationStart := if u.violationStart.None? then Some(now) else u.violationStart),
            Reply(false, 1.0 / lim.rate))
  }

  // ---------- the backend ----------

  class BucketState {
    var tokens: real
    var last: real
    var violationCount: int
    var violationStart: Option<real>
    var blockedUntil: Option<real>

    constructor (tokens: real, last: real)
      ensures Value() == Bucket(tokens, last, 0, None, None)
    {
      this.tokens := tokens;
      this.last := last;
      violationCount := 0;
      violationStart := None;
      blockedUntil := None;
    }

    function Value(): Bucket
      reads this
    {
      Bucket(tokens, last, violationCount, violationStart, blockedUntil)
    }
  }

  class Backend {
    var states: map<string, BucketState>

    ghost predicate Valid()
      reads this
    {
      forall a, b :: a in states && b in states && a != b ==> states[a] != states[b]
    }

    ghost function View(): map<string, Bucket>
      reads this, states.Values
    {
      map k | k in states :: states[k].Value()
    }

    constructor ()
      ensures Valid() && View() == map[]
    {
      states := map[];
    }

    /** `created` is the clock read while inserting a missing entry, `now` the later one. */
    method Allow(key: string, lim: Limits, created: real, now: real) returns (reply: Reply)
      requires Valid() && lim.rate > 0.0
      modifies this, states.Values
      ensures Valid() && fresh(states.Values - old(states.Values))
      ensures var r := Step(Entering(Lookup(old(View()), key), lim, created), lim, now);
              View() == old(View())[key := r.0] && reply == r.1
    {
      var state;
      if key in states {
        state := states[key];
      } else {
        state := new BucketState(lim.burst as real, created);
        states := states[key := state];
      }
      reply := Decide(state, lim, now);
    }

    method Decide(state: BucketState, lim: Limits, now: real) returns (reply: Reply)
      requires lim.rate > 0.0
      modifies state
      ensures state.Value() == Step(old(state.Value()), lim, now).0
      ensures reply == Step(old(state.Value()), lim, now).1
    {
      if state.blockedUntil.Some? {
        if now < state.blockedUntil.value {
          return Reply(false, state.blockedUntil.value - now);
        }
        state.blockedUntil := None;
        state.violationCount := 0;
      }
      var elapsed := now - state.last;
      state.tokens := MinReal(lim.burst as real, state.tokens + Gain(lim, elapsed));
      state.last := now;
      if state.tokens >= 1.0 {
        state.tokens := state.tokens - 1.0;
        return Reply(true, 0.0);
      }
      state.violationCount := state.violationCount + 1;
      if state.violationStart.None? {
        state.violationStart := Some(now);
      }
      return Reply(false, 1.0 / lim.rate);
    }

    /** Drops the entries last used before now - maxAge, whatever order the map is walked in. */
    method Cleanup(maxAge: real, now: real)
      requires Valid()
      modifies this
      ensures Valid() && View() == Swept(old(View()), maxAge, now)
      ensures forall k :: k in View() <==> k in old(View()) && now - old(View())[k].last <= maxAge
      ensures forall k :: k in View() ==> View()[k] == old(View())[k]
    {
      var cutoff := now - maxAge;
      var rest := states.Keys;
      while rest != {}
        invariant rest <= states.Keys <= old(states.Keys)
        invariant forall k :: k in states ==> states[k] == old(states[k])
        invariant forall k :: k in old(states) && k !in rest ==> (k in states <==> old(states[k].last) >= cutoff)
      {
        var key :| key in rest;
        if states[key].last < cutoff {
          states := states - {key};
        }
        rest := rest - {key};
      }
    }
  }

  function Lookup(m: map<string, Bucket>, key: string): Option<Bucket> {
    if key in m then Some(m[key]) else None
  }

  function Swept(m: map<string, Bucket>, maxAge: real, now: real): map<string, Bucket> {
    map k | k in m && m[k].last >= now - maxAge :: m[k]
  }

  // ---------- runs ----------

  datatype Event = Allow(key: string, created: real, now: real) | Cleanup(now: real)

  /** Clock readings never go back, and an entry is created no later than it is first used. */
  predicate Ordered(events: seq<Event>, t: real) {
    events != [] ==>
      && t <= events[0].now
      && (events[0].Allow? ==> t <= events[0].created <= events[0].now)
      && Ordered(events[1..], events[0].now)
  }

  function After(m: map<string, Bucket>, lim: Limits, maxAge: real, e: Event): map<string, Bucket>
    requires lim.rate > 0.0
  {
    match e
    case Allow(key, created, now) => m[key := Step(Entering(Lookup(m, key), lim, created), lim, now).0]
    case Cleanup(now) => Swept(m, maxAge, now)
  }

  /** The replies of a run, one for each Allow. */
  function Replies(m: map<string, Bucket>, lim: Limits, maxAge: real, events: seq<Event>): seq<Reply>
    requires lim.rate > 0.0
    decreases |events|
  {
    if events == [] then []
    else
      var e := events[0];
      (if e.Allow? then [Step(Entering(Lookup(m, e.key), lim, e.created), lim, e.now).1] else [])
      + Replies(After(m, lim, maxAge, e), lim, maxAge, events[1..])
  }

  function WithoutCleanups(events: seq<Event>): seq<Event> {
    if events == [] then []
    else (if events[0].Allow? then [events[0]] else []) + WithoutCleanups(events[1..])
  }

  // ---------- what a bucket is worth ----------

  function Available(s: Option<Bucket>, lim: Limits, t: real): real {
    if s.None? then lim.burst as real
    else MinReal(lim.burst as real, s.value.tokens + Gain(lim, t - s.value.last))
  }

  /** Nothing in the backend ever sets blockedUntil. */
  predicate Sound(s: Option<Bucket>, lim: Limits, t: real) {
    s.Some? ==> 0.0 <= s.value.tokens <= lim.burst as real && s.value.last <= t && s.value.blockedUntil.None?
  }

  lemma GainFacts(lim: Limits, s: real, t: real, u: real)
    requires lim.rate > 0.0 && s <= t <= u
    ensures Gain(lim, u - s) == Gain(lim, u - t) + Gain(lim, t - s)
    ensures Gain(lim, u - t) >= 0.0 && Gain(lim, t - s) >= 0.0
    ensures Gain(lim, t - t) == 0.0
  {
  }

  lemma AvailableLater(s: Option<Bucket>, lim: Limits, t: real, u: real)
    requires lim.rate > 0.0 && lim.burst >= 0 && t <= u && Sound(s, lim, t)
    ensures Sound(s, lim, u) && 0.0 <= Available(s, lim, u) <= lim.burst as real
    ensures Available(s, lim, u) == MinReal(lim.burst as real, Available(s, lim, t) + Gain(lim, u - t))
  {
    GainFacts(lim, t, t, u);
    if s.Some? {
      GainFacts(lim, s.value.last, t, u);
    }
  }

  /** A call's outcome depends only on what its bucket is worth, and it takes what it admits. */
  lemma StepOnWorth(s: Option<Bucket>, lim: Limits, created: real, now: real)
    requires lim.rate > 0.0 && lim.burst >= 0 && created <= now && Sound(s, lim, now)
    ensures var worth, r := Available(s, lim, now), Step(Entering(s, lim, created), lim, now);
            && r.1 == (if worth >= 1.0 then Reply(true, 0.0) else Reply(false, 1.0 / lim.rate))
            && Sound(Some(r.0), lim, now)
            && Available(Some(r.0), lim, now) == worth - (if r.1.allowed then 1.0 else 0.0)
            && r.0.violationCount == (if s.Some? then s.value.violationCount else 0) + (if r.1.allowed then 0 else 1)
  {
    GainFacts(lim, created, now, now);
    AvailableLater(s, lim, now, now);
    if s.Some? {
      GainFacts(lim, s.value.last, now, now);
    }
  }

  // ---------- cleanup cannot be observed ----------

  /** Two stores that answer alike from time t on. */
  ghost predicate Alike(m: map<string, Bucket>, m': map<string, Bucket>, lim: Limits, t: real) {
    forall key {:trigger Lookup(m, key)} {:trigger Lookup(m', key)} :: AlikeAt(m, m', lim, t, key)
  }

  predicate AlikeAt(m: map<string, Bucket>, m': map<string, Bucket>, lim: Limits, t: real, key: string) {
    && Sound(Lookup(m, key), lim, t) && Sound(Lookup(m', key), lim, t)
    && Available(Lookup(m, key), lim, t) == Available(Lookup(m', key), lim, t)
  }

  lemma AlikeLater(m: map<string, Bucket>, m': map<string, Bucket>, lim: Limits, t: real, u: real)
    requires lim.rate > 0.0 && lim.burst >= 0 && t <= u && Alike(m, m', lim, t)
    ensures Alike(m, m', lim, u)
  {
    forall key
      ensures AlikeAt(m, m', lim, u, key)
    {
      assert AlikeAt(m, m', lim, t, key) by { var _ := Lookup(m, key); }
      AvailableLater(Lookup(m, key), lim, t, u);
      AvailableLater(Lookup(m', key), lim, t, u);
    }
  }

  lemma SweptIsAlike(m: map<string, Bucket>, m': map<string, Bucket>, lim: Limits, maxAge: real, now: real)
    requires lim.rate > 0.0 && lim.burst >= 0 && lim.rate * maxAge >= lim.burst as real
    requires Alike(m, m', lim, now)
    ensures Alike(Swept(m, maxAge, now), m', lim, now)
  {
    forall key
      ensures AlikeAt(Swept(m, maxAge, now), m', lim, now, key)
    {
      assert AlikeAt(m, m', lim, now, key) by { var _ := Lookup(m, key); }
      if key in m && m[key].last < now - maxAge {
        IdleIsFull(m[key], lim, maxAge, now);
      }
    }
  }

  lemma IdleIsFull(b: Bucket, lim: Limits, maxAge: real, now: real)
    requires lim.rate > 0.0 && lim.rate * maxAge >= lim.burst as real
    requires b.tokens >= 0.0 && b.last < now - maxAge
    ensures Available(Some(b), lim, now) == lim.burst as real
  {
    GainOverAge(lim, maxAge, now - b.last);
    hide Gain;
    assert Gain(lim, now - b.last) >= lim.burst as real;
  }

  lemma GainOverAge(lim: Limits, age: real, elapsed: real)
    requires lim.rate > 0.0 && age <= elapsed && lim.rate * age >= lim.burst as real
    ensures Gain(lim, elapsed) >= lim.burst as real
  {
    var more := elapsed - age;
    assert more * lim.rate >= 0.0;
    assert elapsed * lim.rate == age * lim.rate + more * lim.rate;
  }

  lemma AllowKeepsAlike(m: map<string, Bucket>, m': map<string, Bucket>, lim: Limits, maxAge: real, e: Event)
    requires lim.rate > 0.0 && lim.burst >= 0 && e.Allow? && e.created <= e.now
    requires Alike(m, m', lim, e.now)
    ensures Step(Entering(Lookup(m, e.key), lim, e.created), lim, e.now).1
            == Step(Entering(Lookup(m', e.key), lim, e.created), lim, e.now).1
    ensures Alike(After(m, lim, maxAge, e), After(m', lim, maxAge, e), lim, e.now)
  {
    assert AlikeAt(m, m', lim, e.now, e.key);
    StepOnWorth(Lookup(m, e.key), lim, e.created, e.now);
    StepOnWorth(Lookup(m', e.key), lim, e.created, e.now);
    var n, n' := After(m, lim, maxAge, e), After(m', lim, maxAge, e);
    forall key
      ensures AlikeAt(n, n', lim, e.now, key)
    {
      if key != e.key {
        assert Lookup(n, key) == Lookup(m, key) && Lookup(n', key) == Lookup(m', key);
      }
    }
  }

  lemma {:induction false} AlikeRepliesSame(
      m: map<string, Bucket>, m': map<string, Bucket>, lim: Limits, maxAge: real, events: seq<Event>, t: real)
    requires lim.rate > 0.0 && lim.burst >= 0 && lim.rate * maxAge >= lim.burst as real
    requires Alike(m, m', lim, t) && Ordered(events, t)
    ensures Replies(m, lim, maxAge, events) == Replies(m', lim, maxAge, WithoutCleanups(events))
    decreases |events|
  {
    if events != [] {
      var e := events[0];
      AlikeLater(m, m', lim, t, e.now);
      if e.Allow? {
        AllowKeepsAlike(m, m', lim, maxAge, e);
        AlikeRepliesSame(After(m, lim, maxAge, e), After(m', lim, maxAge, e), lim, maxAge, events[1..], e.now);
        assert WithoutCleanups(events)[1..] == WithoutCleanups(events[1..]);
      } else {
        SweptIsAlike(m, m', lim, maxAge, e.now);
        AlikeRepliesSame(Swept(m, maxAge, e.now), m', lim, maxAge, events[1..], e.now);
        assert WithoutCleanups(events) == WithoutCleanups(events[1..]);
      }
    }
  }

  // ---------- ... and exactly when ----------

  function Times(n: nat, e: Event): seq<Event> {
    if n == 0 then [] else [e] + Times(n - 1, e)
  }

  function CountAllowed(replies: seq<Reply>): nat {
    if replies == [] then 0 else (if replies[0].allowed then 1 else 0) + CountAllowed(replies[1..])
  }

  function RunOf(m: map<string, Bucket>, lim: Limits, maxAge: real, events: seq<Event>): map<string, Bucket>
    requires lim.rate > 0.0
    decreases |events|
  {
    if events == [] then m else RunOf(After(m, lim, maxAge, events[0]), lim, maxAge, events[1..])
  }

  lemma {:induction false} CountSplits(
      m: map<string, Bucket>, lim: Limits, maxAge: real, a: seq<Event>, b: seq<Event>)
    requires lim.rate > 0.0
    ensures CountAllowed(Replies(m, lim, maxAge, a + b))
            == CountAllowed(Replies(m, lim, maxAge, a)) + CountAllowed(Replies(RunOf(m, lim, maxAge, a), lim, maxAge, b))
    decreases |a|
  {
    if a == [] {
      assert a + b == b;
    } else {
      assert (a + b)[1..] == a[1..] + b;
      var m' := After(m, lim, maxAge, a[0]);
      CountSplits(m', lim, maxAge, a[1..], b);
      HeadCount(m, lim, maxAge, a);
      HeadCount(m, lim, maxAge, a + b);
    }
  }

  lemma {:induction false} HeadCount(m: map<string, Bucket>, lim: Limits, maxAge: real, events: seq<Event>)
    requires lim.rate > 0.0 && events != []
    ensures var e := events[0];
            CountAllowed(Replies(m, lim, maxAge, events))
            == (if e.Allow? && Step(Entering(Lookup(m, e.key), lim, e.created), lim, e.now).1.allowed then 1 else 0)
               + CountAllowed(Replies(After(m, lim, maxAge, e), lim, maxAge, events[1..]))
  {
    var e, rest := events[0], Replies(After(m, lim, maxAge, events[0]), lim, maxAge, events[1..]);
    if e.Allow? {
      var r := Step(Entering(Lookup(m, e.key), lim, e.created), lim, e.now).1;
      assert ([r] + rest)[1..] == rest;
    } else {
      assert [] + rest == rest;
    }
  }

  /** n simultaneous calls on one bucket get exactly as many admissions as it is worth, rounded down. */
  lemma {:induction false} Drain(m: map<string, Bucket>, lim: Limits, maxAge: real, n: nat, e: Event)
    requires lim.rate > 0.0 && lim.burst >= 0 && e.Allow? && e.created <= e.now
    requires Sound(Lookup(m, e.key), lim, e.now)
    ensures var worth, got := Available(Lookup(m, e.key), lim, e.now), CountAllowed(Replies(m, lim, maxAge, Times(n, e)));
            && got as real <= worth
            && (n as real <= worth ==> got == n)
            && var s := Lookup(RunOf(m, lim, maxAge, Times(n, e)), e.key);
               Sound(s, lim, e.now) && Available(s, lim, e.now) == worth - got as real
    decreases n
  {
    AvailableLater(Lookup(m, e.key), lim, e.now, e.now);
    if n > 0 {
      var m' := After(m, lim, maxAge, e);
      StepOnWorth(Lookup(m, e.key), lim, e.created, e.now);
      Drain(m', lim, maxAge, n - 1, e);
      assert Times(n, e)[1..] == Times(n - 1, e);
      HeadCount(m, lim, maxAge, Times(n, e));
    }
  }

  /** The run that tells: drain a bucket, sweep it as soon as it is old enough, drain it again. */
  function Witness(lim: Limits, now: real): seq<Event>
    requires lim.burst >= 0
  {
    Times(lim.burst, Allow("k", 0.0, 0.0)) + [Cleanup(now)] + Times(lim.burst, Allow("k", now, now))
  }

  /** A moment after maxAge at which the drained bucket has not refilled. */
  lemma SweepTime(lim: Limits, maxAge: real) returns (now: real)
    requires lim.rate > 0.0 && lim.burst > 0 && lim.rate * maxAge < lim.burst as real
    ensures now >= 0.0 && now > maxAge && Gain(lim, now) < lim.burst as real
  {
    var full := lim.burst as real / lim.rate;
    assert full * lim.rate == lim.burst as real;
    assert full <= 0.0 ==> full * lim.rate <= 0.0;
    assert maxAge >= full ==> maxAge * lim.rate >= full * lim.rate;
    now := if maxAge < 0.0 then 0.0 else (maxAge + full) / 2.0;
    assert now < full;
    assert (full - now) * lim.rate > 0.0;
  }

  lemma {:induction false} TimesOrdered(n: nat, e: Event, rest: seq<Event>, t: real)
    requires e.Allow? && t <= e.created <= e.now && e.created == e.now && Ordered(rest, e.now)
    ensures Ordered(Times(n, e) + rest, t)
    decreases n
  {
    if n == 0 {
      assert Times(n, e) + rest == rest;
      if rest != [] { assert t <= rest[0].now; }
    } else {
      TimesOrdered(n - 1, e, rest, e.now);
      assert (Times(n, e) + rest)[1..] == Times(n - 1, e) + rest;
    }
  }

  lemma {:induction false} WithoutCleanupsSplits(a: seq<Event>, b: seq<Event>)
    ensures WithoutCleanups(a + b) == WithoutCleanups(a) + WithoutCleanups(b)
    decreases |a|
  {
    if a == [] {
      assert a + b == b;
    } else {
      WithoutCleanupsSplits(a[1..], b);
      var first := if a[0].Allow? then [a[0]] else [];
      assert (a + b)[0] == a[0] && (a + b)[1..] == a[1..] + b;
      assert WithoutCleanups(a + b) == first + WithoutCleanups(a[1..] + b);
      assert WithoutCleanups(a) == first + WithoutCleanups(a[1..]);
    }
  }

  lemma {:induction false} TimesHasNoCleanups(n: nat, e: Event)
    requires e.Allow?
    ensures WithoutCleanups(Times(n, e)) == Times(n, e)
  {
    if n > 0 {
      TimesHasNoCleanups(n - 1, e);
      assert Times(n, e)[1..] == Times(n - 1, e);
    }
  }

  lemma TooEagerCleanupShows(lim: Limits, maxAge: real) returns (events: seq<Event>)
    requires lim.rate > 0.0 && lim.burst > 0 && lim.rate * maxAge < lim.burst as real
    ensures Ordered(events, 0.0)
    ensures Replies(map[], lim, maxAge, events) != Replies(map[], lim, maxAge, WithoutCleanups(events))
  {
    var now := SweepTime(lim, maxAge);
    var e, f, n := Allow("k", 0.0, 0.0), Allow("k", now, now), lim.burst;
    var first, second := Times(n, e), Times(n, f);
    events := Witness(lim, now);
    assert events == first + ([Cleanup(now)] + second);
    TimesOrdered(n, f, [], now);
    assert second + [] == second;
    assert ([Cleanup(now)] + second)[1..] == second;
    TimesOrdered(n, e, [Cleanup(now)] + second, 0.0);

    WithoutCleanupsSplits(first, [Cleanup(now)] + second);
    TimesHasNoCleanups(n, e);
    TimesHasNoCleanups(n, f);
    assert WithoutCleanups(events) == first + second;

    Drain(map[], lim, maxAge, n, e);
    var m := RunOf(map[], lim, maxAge, first);
    assert Available(Lookup(m, "k"), lim, 0.0) == 0.0;
    CountSplits(map[], lim, maxAge, first, second);
    CountSplits(map[], lim, maxAge, first, [Cleanup(now)] + second);

    // with the sweep the second round is admitted in full
    HeadCount(m, lim, maxAge, [Cleanup(now)] + second);
    RunStaysPut(map[], lim, maxAge, n, e);
    assert Lookup(Swept(m, maxAge, now), "k") == None;
    Drain(Swept(m, maxAge, now), lim, maxAge, n, f);

    // without it the bucket is not worth that much
    AvailableLater(Lookup(m, "k"), lim, 0.0, now);
    Drain(m, lim, maxAge, n, f);
  }

  lemma {:induction false} RunStaysPut(m: map<string, Bucket>, lim: Limits, maxAge: real, n: nat, e: Event)
    requires lim.rate > 0.0 && e.Allow? && (e.key in m ==> m[e.key].blockedUntil.None?)
    ensures var m' := RunOf(m, lim, maxAge, Times(n, e));
            n > 0 ==> e.key in m' && m'[e.key].last == e.now
    decreases n
  {
    if n > 0 {
      assert Times(n, e)[1..] == Times(n - 1, e);
      RunStaysPut(After(m, lim, maxAge, e), lim, maxAge, n - 1, e);
    }
  }

  ghost predicate CleanupUnobservable(lim: Limits, maxAge: real)
    requires lim.rate > 0.0
  {
    forall events :: Ordered(events, 0.0) ==>
      Replies(map[], lim, maxAge, events) == Replies(map[], lim, maxAge, WithoutCleanups(events))
  }

  /** With no burst nobody is ever admitted, swept or not. */
  lemma {:induction false} NoBurstNoAdmission(
      m: map<string, Bucket>, m': map<string, Bucket>, lim: Limits, maxAge: real, events: seq<Event>)
    requires lim.rate > 0.0 && lim.burst <= 0
    requires forall k :: k in m ==> m[k].blockedUntil.None?
    requires forall k :: k in m' ==> m'[k].blockedUntil.None?
    ensures Replies(m, lim, maxAge, events) == Replies(m', lim, maxAge, WithoutCleanups(events))
    decreases |events|
  {
    if events != [] {
      var e, rest := events[0], WithoutCleanups(events[1..]);
      if e.Allow? {
        NoBurstNoAdmission(After(m, lim, maxAge, e), After(m', lim, maxAge, e), lim, maxAge, events[1..]);
        assert WithoutCleanups(events)[1..] == rest;
      } else {
        NoBurstNoAdmission(After(m, lim, maxAge, e), m', lim, maxAge, events[1..]);
        assert WithoutCleanups(events) == rest;
      }
    }
  }

  /** Sweeping changes no reply of any run exactly when an idle bucket refills within maxAge (or
      nothing is ever admitted anyway). */
  lemma CleanupUnobservableExactly(lim: Limits, maxAge: real)
    requires lim.rate > 0.0
    ensures CleanupUnobservable(lim, maxAge) <==> lim.burst <= 0 || lim.rate * maxAge >= lim.burst as real
  {
    if lim.burst <= 0 || lim.rate * maxAge >= lim.burst as real {
      forall events | Ordered(events, 0.0)
        ensures Replies(map[], lim, maxAge, events) == Replies(map[], lim, maxAge, WithoutCleanups(events))
      {
        if lim.burst <= 0 {
          NoBurstNoAdmission(map[], map[], lim, maxAge, events);
        } else {
          assert forall key :: AlikeAt(map[], map[], lim, 0.0, key);
          AlikeRepliesSame(map[], map[], lim, maxAge, events, 0.0);
        }
      }
    } else {
      var events := TooEagerCleanupShows(lim, maxAge);
    }
  }
}
