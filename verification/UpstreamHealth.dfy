/** Passive health and the circuit breaker of one upstream target. Times are nanoseconds. */
module UpstreamHealth {
  import opened Common

  const PASSIVE_FAIL_THRESHOLD := 3
  const PASSIVE_RECOVER_WINDOW := 30_000_000_000

  datatype Circuit = Circuit(enabled: bool, threshold: int, openFor: int) {
    /** What the policy defaults guarantee. */
    predicate Valid() {
      enabled ==> threshold > 0 && openFor > 0
    }
  }

  datatype Health = Health(failures: int, unhealthyUntil: int, cbFailures: int, cbOpenUntil: int)

  const FRESH := Health(0, 0, 0, 0)

  /** The clock is read once for each of the two mechanisms. */
  function Failed(c: Circuit, h: Health, now: int, cbNow: int): Health {
    var p := if h.failures + 1 >= PASSIVE_FAIL_THRESHOLD
             then h.(failures := 0, unhealthyUntil := now + PASSIVE_RECOVER_WINDOW)
             else h.(failures := h.failures + 1);
    if !c.enabled then p
    else if p.cbFailures + 1 >= c.threshold then p.(cbFailures := 0, cbOpenUntil := cbNow + c.openFor)
    else p.(cbFailures := p.cbFailures + 1)
  }

  predicate Skipped(c: Circuit, h: Health, now: int) {
    h.unhealthyUntil > now || (c.enabled && h.cbOpenUntil > now)
  }

  class Target {
    const weight: int
    const circuit: Circuit
    var active: int
    var failures: int
    var unhealthyUntil: int
    var cbFailures: int
    var cbOpenUntil: int

    constructor (weight: int, circuit: Circuit)
      ensures this.weight == weight && this.circuit == circuit && Value() == FRESH && active == 0
    {
      this.weight := weight;
      this.circuit := circuit;
      active, failures, unhealthyUntil, cbFailures, cbOpenUntil := 0, 0, 0, 0, 0;
    }

    function Value(): Health
      reads this
    {
      Health(failures, unhealthyUntil, cbFailures, cbOpenUntil)
    }

    predicate IsSkipped(now: int)
      reads this
    {
      Skipped(circuit, Value(), now)
    }

    method MarkFailure(now: int, cbNow: int)
      modifies this
      ensures Value() == Failed(circuit, old(Value()), now, cbNow) && active == old(active)
    {
      failures := failures + 1;
      if failures >= PASSIVE_FAIL_THRESHOLD {
        unhealthyUntil := now + PASSIVE_RECOVER_WINDOW;
        failures := 0;
      }
      if circuit.enabled {
        cbFailures := cbFailures + 1;
        if cbFailures >= circuit.threshold {
          cbOpenUntil := cbNow + circuit.openFor;
          cbFailures := 0;
        }
      }
    }

    method MarkSuccess()
      modifies this
      ensures Value() == FRESH && active == old(active)
    {
      failures := 0;
      unhealthyUntil := 0;
      cbFailures := 0;
      cbOpenUntil := 0;
    }
  }

  // ---------- state as a function of history ----------

  datatype Mark = Failure(now: int, cbNow: int) | Success

  function After(c: Circuit, marks: seq<Mark>, n: nat): Health
    requires n <= |marks|
  {
    if n == 0 then FRESH
    else
      var m := marks[n - 1];
      if m.Success? then FRESH else Failed(c, After(c, marks, n - 1), m.now, m.cbNow)
  }

  /** Failures since the last success among the first n marks. */
  function Streak(marks: seq<Mark>, n: nat): nat
    requires n <= |marks|
  {
    if n == 0 || marks[n - 1].Success? then 0 else Streak(marks, n - 1) + 1
  }

  lemma ModUnique(x: int, k: int, q: int, r: int)
    requires k > 0 && 0 <= r < k && x == q * k + r
    ensures x % k == r
  {
    var d := x / k - q;
    assert d * k == r - x % k;
    assert d >= 1 ==> d * k >= k;
    assert d <= -1 ==> d * k <= -k;
  }

  lemma ModStep(x: int, k: int)
    requires k > 0 && x >= 0
    ensures (x + 1) % k == if x % k + 1 >= k then 0 else x % k + 1
  {
    var q := x / k;
    if x % k + 1 >= k {
      assert (q + 1) * k == q * k + k;
      ModUnique(x + 1, k, q + 1, 0);
    } else {
      ModUnique(x + 1, k, q, x % k + 1);
    }
  }

  function Residue(marks: seq<Mark>, n: nat, k: int): int
    requires n <= |marks| && k > 0
  {
    Streak(marks, n) % k
  }

  lemma ResidueFollows(marks: seq<Mark>, n: nat, k: int)
    requires n < |marks| && k > 0
    ensures Residue(marks, 0, k) == 0
    ensures Residue(marks, n + 1, k) ==
            if marks[n].Success? || Residue(marks, n, k) + 1 >= k then 0 else Residue(marks, n, k) + 1
  {
    ModStep(Streak(marks, n), k);
  }

  lemma {:induction false} CountersAreResidues(c: Circuit, marks: seq<Mark>, n: nat)
    requires c.Valid() && n < |marks|
    ensures After(c, marks, n + 1).failures == Residue(marks, n + 1, PASSIVE_FAIL_THRESHOLD)
    ensures After(c, marks, n + 1).cbFailures == if c.enabled then Residue(marks, n + 1, c.threshold) else 0
  {
    hide Residue;
    ResidueFollows(marks, n, PASSIVE_FAIL_THRESHOLD);
    if c.enabled {
      ResidueFollows(marks, n, c.threshold);
    }
    if n > 0 {
      CountersAreResidues(c, marks, n - 1);
    }
  }

  /** Both counters are the failures since the last success, modulo their thresholds. */
  lemma CountersAreStreak(c: Circuit, marks: seq<Mark>, n: nat)
    requires c.Valid() && n <= |marks|
    ensures After(c, marks, n).failures == Streak(marks, n) % 3
    ensures After(c, marks, n).cbFailures == if c.enabled then Streak(marks, n) % c.threshold else 0
  {
    if n > 0 {
      CountersAreResidues(c, marks, n - 1);
    }
  }

  /** Mark i fills a whole number of thresholds. */
  predicate Trips(marks: seq<Mark>, i: nat, threshold: int)
    requires i < |marks| && threshold > 0
  {
    marks[i].Failure? && Streak(marks, i + 1) % threshold == 0
  }

  /** What the marks that trip read from the clock is positive and never goes back. */
  predicate PassiveTimes(marks: seq<Mark>) {
    forall i, j :: 0 <= i <= j < |marks| && Trips(marks, i, PASSIVE_FAIL_THRESHOLD) && Trips(marks, j, PASSIVE_FAIL_THRESHOLD) ==>
      0 <= marks[i].now <= marks[j].now
  }

  predicate CircuitTimes(c: Circuit, marks: seq<Mark>)
    requires c.Valid() && c.enabled
  {
    forall i, j :: 0 <= i <= j < |marks| && Trips(marks, i, c.threshold) && Trips(marks, j, c.threshold) ==>
      0 <= marks[i].cbNow <= marks[j].cbNow
  }

  predicate NoSuccess(marks: seq<Mark>, i: nat, n: nat)
    requires n <= |marks|
  {
    forall j :: i <= j < n ==> marks[j].Failure?
  }

  /** Mark i, with no success after it, tripped passive health for a period not over at t. */
  predicate PassiveHold(marks: seq<Mark>, n: nat, t: int, i: nat)
    requires n <= |marks|
  {
    i < n && NoSuccess(marks, i, n) && Trips(marks, i, 3) && marks[i].now + 30_000_000_000 > t
  }

  predicate CircuitHold(c: Circuit, marks: seq<Mark>, n: nat, t: int, i: nat)
    requires c.Valid() && n <= |marks|
  {
    c.enabled && i < n && NoSuccess(marks, i, n) && Trips(marks, i, c.threshold)
    && marks[i].cbNow + c.openFor > t
  }

  lemma {:induction false} PassiveIsLastTrip(c: Circuit, marks: seq<Mark>, n: nat, t: int)
    requires c.Valid() && PassiveTimes(marks) && n <= |marks| && t >= 0
    ensures After(c, marks, n).unhealthyUntil > t <==> exists i: nat :: PassiveHold(marks, n, t, i)
  {
    if n > 0 {
      CountersAreStreak(c, marks, n - 1);
      CountersAreStreak(c, marks, n);
      PassiveIsLastTrip(c, marks, n - 1, t);
      if Trips(marks, n - 1, PASSIVE_FAIL_THRESHOLD) {
        assert marks[n - 1].now + PASSIVE_RECOVER_WINDOW > t ==> PassiveHold(marks, n, t, n - 1);
      } else if After(c, marks, n - 1).unhealthyUntil > t {
        var i: nat :| PassiveHold(marks, n - 1, t, i);
        assert marks[n - 1].Failure? ==> PassiveHold(marks, n, t, i);
      }
      forall i: nat | PassiveHold(marks, n, t, i) && i < n - 1
        ensures PassiveHold(marks, n - 1, t, i)
      {
      }
    }
  }

  lemma {:induction false} CircuitIsLastTrip(c: Circuit, marks: seq<Mark>, n: nat, t: int)
    requires c.Valid() && c.enabled && CircuitTimes(c, marks) && n <= |marks| && t >= 0
    ensures After(c, marks, n).cbOpenUntil > t <==> exists i: nat :: CircuitHold(c, marks, n, t, i)
  {
    if n > 0 {
      CountersAreStreak(c, marks, n - 1);
      CountersAreStreak(c, marks, n);
      CircuitIsLastTrip(c, marks, n - 1, t);
      if Trips(marks, n - 1, c.threshold) {
        assert marks[n - 1].cbNow + c.openFor > t ==> CircuitHold(c, marks, n, t, n - 1);
      } else if After(c, marks, n - 1).cbOpenUntil > t {
        var i: nat :| CircuitHold(c, marks, n - 1, t, i);
        assert marks[n - 1].Failure? ==> CircuitHold(c, marks, n, t, i);
      }
      forall i: nat | CircuitHold(c, marks, n, t, i) && i < n - 1
        ensures CircuitHold(c, marks, n - 1, t, i)
      {
      }
    }
  }

  /** A target is skipped at time t exactly when a trip after its last success is still within its
      period. */
  lemma SkippedExactlyWhileTripped(c: Circuit, marks: seq<Mark>, n: nat, t: int)
    requires c.Valid() && PassiveTimes(marks) && (c.enabled ==> CircuitTimes(c, marks)) && n <= |marks| && t >= 0
    ensures Skipped(c, After(c, marks, n), t)
            <==> exists i: nat :: PassiveHold(marks, n, t, i) || CircuitHold(c, marks, n, t, i)
  {
    PassiveIsLastTrip(c, marks, n, t);
    if c.enabled {
      CircuitIsLastTrip(c, marks, n, t);
    }
  }
}
