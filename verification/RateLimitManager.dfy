/** The manager in front of a primary limiter that may fail (Redis) and a local fallback. */
module RateLimitManager {
  import opened Common
  import Local = LocalBackend
  import Redis = SlidingWindow

  class Manager {
    const fallback: Local.Backend

    constructor (fallback: Local.Backend)
      ensures this.fallback == fallback
    {
      this.fallback := fallback;
    }

    /** `healthy` is the health check's answer and `primary` what the primary replied, None for an
        error. An unhealthy primary is not asked: the fallback stands in for it. */
    method Allow(key: string, lim: Local.Limits, healthy: bool, primary: Option<Local.Reply>, created: real, now: real)
      returns (reply: Local.Reply)
      requires fallback.Valid() && lim.rate > 0.0
      modifies fallback, fallback.states.Values
      ensures fallback.Valid() && fresh(fallback.states.Values - old(fallback.states.Values))
      ensures var r := Local.Step(Local.Entering(Local.Lookup(old(fallback.View()), key), lim, created), lim, now);
              if healthy && primary.Some? then reply == primary.value && fallback.View() == old(fallback.View())
              else reply == r.1 && fallback.View() == old(fallback.View())[key := r.0]
    {
      if healthy {
        if primary.Some? {
          return primary.value;
        }
      }
      reply := fallback.Allow(key, lim, created, now);
    }
  }

  // ---------- runs of one key ----------

  datatype Call = Call(healthy: bool, primary: Option<bool>, created: real, now: real)

  predicate ByPrimary(c: Call) {
    c.healthy && c.primary.Some?
  }

  predicate Ordered(calls: seq<Call>) {
    && (forall i :: 0 <= i < |calls| ==> calls[i].created <= calls[i].now)
    && (forall i, j :: 0 <= i < j < |calls| ==> calls[i].now <= calls[j].created)
  }

  /** The key's bucket in the fallback before call i. */
  function Before(lim: Local.Limits, calls: seq<Call>, i: nat): Option<Local.Bucket>
    requires lim.rate > 0.0 && i <= |calls|
  {
    if i == 0 then None
    else
      var s, c := Before(lim, calls, i - 1), calls[i - 1];
      if ByPrimary(c) then s else Some(Local.Step(Local.Entering(s, lim, c.created), lim, c.now).0)
  }

  predicate Allowed(lim: Local.Limits, calls: seq<Call>, i: nat)
    requires lim.rate > 0.0 && i < |calls|
  {
    var c := calls[i];
    if ByPrimary(c) then c.primary.value
    else Local.Step(Local.Entering(Before(lim, calls, i), lim, c.created), lim, c.now).1.allowed
  }

  /** Admissions among the calls i, ..., j-1. */
  function Admitted(lim: Local.Limits, calls: seq<Call>, i: nat, j: nat): nat
    requires lim.rate > 0.0 && i <= j <= |calls|
    decreases j
  {
    if i == j then 0 else Admitted(lim, calls, i, j - 1) + if Allowed(lim, calls, j - 1) then 1 else 0
  }

  /** Those the primary answered for. */
  function AdmittedByPrimary(calls: seq<Call>, i: nat, j: nat): nat
    requires i <= j <= |calls|
    decreases j
  {
    if i == j then 0
    else AdmittedByPrimary(calls, i, j - 1)
         + if ByPrimary(calls[j - 1]) && calls[j - 1].primary.value then 1 else 0
  }

  /** Of the first n calls those that reach the fallback: the primary is unhealthy or fails. */
  ghost function Fallen(calls: seq<Call>, n: nat): seq<Call>
    requires n <= |calls|
  {
    if n == 0 then []
    else Fallen(calls, n - 1) + if calls[n - 1].healthy && calls[n - 1].primary.Some? then [] else [calls[n - 1]]
  }

  lemma {:induction false} BeforeOfPrefix(lim: Local.Limits, calls: seq<Call>, more: seq<Call>, i: nat)
    requires lim.rate > 0.0 && i <= |calls|
    ensures Before(lim, calls + more, i) == Before(lim, calls, i)
  {
    if i > 0 {
      BeforeOfPrefix(lim, calls, more, i - 1);
    }
  }

  /** The fallback answers as if the calls the primary answered had never been made; those get the primary's
      answer. */
  lemma {:induction false} FallbackSeesItsOwn(lim: Local.Limits, calls: seq<Call>, n: nat)
    requires lim.rate > 0.0 && n < |calls|
    ensures var c, mine := calls[n], Fallen(calls, n);
            Allowed(lim, calls, n) ==
            if c.healthy && c.primary.Some? then c.primary.value else Allowed(lim, mine + [c], |mine|)
  {
    FallenBefore(lim, calls, n);
    BeforeOfPrefix(lim, Fallen(calls, n), [calls[n]], |Fallen(calls, n)|);
  }

  lemma {:induction false} FallenBefore(lim: Local.Limits, calls: seq<Call>, n: nat)
    requires lim.rate > 0.0 && n <= |calls|
    ensures Before(lim, calls, n) == Before(lim, Fallen(calls, n), |Fallen(calls, n)|)
  {
    hide Local.Step;
    if n > 0 {
      var mine, c := Fallen(calls, n - 1), calls[n - 1];
      FallenBefore(lim, calls, n - 1);
      BeforeOfPrefix(lim, mine, [c], |mine|);
      assert mine + [] == mine && (mine + [c])[|mine|] == c;
    }
  }

  lemma {:induction false} BucketSound(lim: Local.Limits, calls: seq<Call>, i: nat, t: real)
    requires lim.rate > 0.0 && lim.burst >= 0 && Ordered(calls) && i <= |calls|
    requires i > 0 ==> calls[i - 1].now <= t
    ensures Local.Sound(Before(lim, calls, i), lim, t)
  {
    if i > 0 {
      var c := calls[i - 1];
      BucketSound(lim, calls, i - 1, c.now);
      Local.StepOnWorth(Before(lim, calls, i - 1), lim, c.created, c.now);
    }
  }

  /** Admissions split between the two backends, and the fallback's share plus what its bucket is
      still worth stays within one burst plus the refill. */
  lemma {:induction false} ShareOfEach(lim: Local.Limits, calls: seq<Call>, i: nat, j: nat, s: real, t: real)
    requires lim.rate > 0.0 && lim.burst >= 0 && Ordered(calls) && i <= j <= |calls| && s <= t
    requires i < j ==> s <= calls[i].now && calls[j - 1].now <= t
    requires j > 0 ==> calls[j - 1].now <= t
    ensures (Admitted(lim, calls, i, j) - AdmittedByPrimary(calls, i, j)) as real
            + Local.Available(Before(lim, calls, j), lim, t)
            <= lim.burst as real + Local.Gain(lim, t - s)
    decreases j
  {
    BucketSound(lim, calls, j, t);
    Local.AvailableLater(Before(lim, calls, j), lim, t, t);
    Local.GainFacts(lim, s, s, t);
    if i < j {
      var c := calls[j - 1];
      ShareOfEach(lim, calls, i, j - 1, s, c.now);
      BucketSound(lim, calls, j - 1, c.now);
      Local.StepOnWorth(Before(lim, calls, j - 1), lim, c.created, c.now);
      BucketSound(lim, calls, j, c.now);
      Local.AvailableLater(Before(lim, calls, j), lim, c.now, t);
      Local.GainFacts(lim, s, c.now, t);
    }
  }

  /** Under any pattern of primary errors and health answers, the calls made between s and t get at
      most what the primary admitted plus the fallback's own bound. */
  lemma {:induction false} ManagerBound(lim: Local.Limits, calls: seq<Call>, i: nat, j: nat, s: real, t: real)
    requires lim.rate > 0.0 && lim.burst >= 0 && Ordered(calls) && i < j <= |calls|
    requires s <= calls[i].now && calls[j - 1].now <= t
    ensures Admitted(lim, calls, i, j) as real
            <= AdmittedByPrimary(calls, i, j) as real + lim.burst as real + (t - s) * lim.rate
  {
    hide Admitted, AdmittedByPrimary, Ordered;
    FallbackBelow(lim, calls, i, j, s, t);
  }

  lemma FallbackBelow(lim: Local.Limits, calls: seq<Call>, i: nat, j: nat, s: real, t: real)
    requires lim.rate > 0.0 && lim.burst >= 0 && Ordered(calls) && i < j <= |calls|
    requires s <= calls[i].now && calls[j - 1].now <= t
    ensures Admitted(lim, calls, i, j) as real
            <= AdmittedByPrimary(calls, i, j) as real + lim.burst as real + Local.Gain(lim, t - s)
  {
    assert calls[i].now <= calls[j - 1].now;
    ShareOfEach(lim, calls, i, j, s, t);
    BucketSound(lim, calls, j, t);
    Local.AvailableLater(Before(lim, calls, j), lim, t, t);
  }

  // ---------- Redis as the primary ----------

  /** Call i ran script step scripts[i], or none. A step may run and its reply still be lost. */
  predicate BackedBy(calls: seq<Call>, scripts: seq<Option<nat>>, r: Redis.Run) {
    && |scripts| == |calls| && |r.replies| == |r.calls|
    && (forall i :: 0 <= i < |calls| && scripts[i].Some? ==> scripts[i].value < |r.calls|)
    && (forall i, j :: 0 <= i < j < |calls| && scripts[i].Some? && scripts[j].Some? ==>
          scripts[i].value < scripts[j].value)
    && (forall i :: 0 <= i < |calls| && ByPrimary(calls[i]) && calls[i].primary.value ==>
          scripts[i].Some? && r.replies[scripts[i].value].Allowed?)
  }

  lemma {:induction false} AdmittedInGrows(r: Redis.Run, lo: int, hi: int, m: nat, n: nat)
    requires m <= n <= |r.calls| == |r.replies|
    ensures Redis.AdmittedIn(r, lo, hi, m) <= Redis.AdmittedIn(r, lo, hi, n)
  {
    if m < n {
      AdmittedInGrows(r, lo, hi, m, n - 1);
    }
  }

  lemma {:induction false} PrimaryShare(
      calls: seq<Call>, scripts: seq<Option<nat>>, r: Redis.Run, lo: int, hi: int, i: nat, j: nat, n: nat)
    requires BackedBy(calls, scripts, r) && i <= j <= |calls| && n <= |r.calls|
    requires forall k :: i <= k < j && scripts[k].Some? ==>
               scripts[k].value < n && lo < r.calls[scripts[k].value].now <= hi
    ensures AdmittedByPrimary(calls, i, j) <= Redis.AdmittedIn(r, lo, hi, n)
    decreases j
  {
    if i < j {
      if ByPrimary(calls[j - 1]) && calls[j - 1].primary.value {
        var k := scripts[j - 1].value;
        PrimaryShare(calls, scripts, r, lo, hi, i, j - 1, k);
        AdmittedInGrows(r, lo, hi, k + 1, n);
      } else {
        PrimaryShare(calls, scripts, r, lo, hi, i, j - 1, n);
      }
    }
  }

  /** With Redis as primary (window in seconds, burst requests a window): calls whose script steps
      fall in one window get at most two bursts plus the fallback's refill, whatever fails, and one more for
      every call that only overwrote a member. */
  lemma RedisWithFallbackBound(
      lim: Local.Limits, calls: seq<Call>, scripts: seq<Option<nat>>, r: Redis.Run, window: int,
      i: nat, j: nat, s: real, t: real, lo: int)
    requires lim.rate > 0.0 && lim.burst >= 0 && Ordered(calls) && i < j <= |calls|
    requires s <= calls[i].now && calls[j - 1].now <= t
    requires Redis.Valid(r, window, lim.burst) && BackedBy(calls, scripts, r)
    requires forall k :: i <= k < j && scripts[k].Some? ==>
               lo < r.calls[scripts[k].value].now <= lo + window * Redis.MICROS_PER_SECOND
    ensures var overwrites := Redis.OverwritesIn(r, lo, lo + window * Redis.MICROS_PER_SECOND, |r.calls|);
            Admitted(lim, calls, i, j) as real <= 2.0 * lim.burst as real + overwrites as real + (t - s) * lim.rate
  {
    ManagerBound(lim, calls, i, j, s, t);
    PrimaryShare(calls, scripts, r, lo, lo + window * Redis.MICROS_PER_SECOND, i, j, |r.calls|);
    Redis.WindowBound(r, window, lim.burst, lo, |r.calls|);
  }
}
