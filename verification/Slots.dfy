/** The two concurrency limits of a compiled site: a compare-and-swap counter of requests in
    flight, and per-client counters in a map under a mutex. */
module Slots {
  import opened Common

  /** A limit of zero or less switches the check off. */
  datatype Limits = Limits(maxConcurrent: int, maxPerIP: int)

  // ---------- the atomic operations ----------

  function AcquireIP(lim: Limits, perIP: map<string, int>, ip: string): (map<string, int>, bool) {
    if lim.maxPerIP <= 0 then (perIP, true)
    else
      var counters := if ip in perIP then perIP else perIP[ip := 0];
      if counters[ip] >= lim.maxPerIP then (counters, false) else (counters[ip := counters[ip] + 1], true)
  }

  function ReleaseIP(lim: Limits, perIP: map<string, int>, ip: string): map<string, int> {
    if lim.maxPerIP <= 0 || ip !in perIP then perIP
    else if perIP[ip] - 1 <= 0 then perIP - {ip}
    else perIP[ip := perIP[ip] - 1]
  }

  class CompiledSite {
    const lim: Limits
    var activeRequests: int
    var perIPRequests: map<string, int>

    constructor (lim: Limits)
      ensures this.lim == lim && activeRequests == 0 && perIPRequests == map[]
    {
      this.lim := lim;
      activeRequests := 0;
      perIPRequests := map[];
    }

    method CompareAndSwap(current: int, next: int) returns (swapped: bool)
      modifies this`activeRequests
      ensures swapped <==> old(activeRequests) == current
      ensures activeRequests == if swapped then next else old(activeRequests)
    {
      swapped := activeRequests == current;
      if swapped {
        activeRequests := next;
      }
    }

    /** Element k of `others` is the counter as the other requests leave it between this one's k-th
        load and its compare-and-swap. A failed swap means they moved it; the loop then loads again. */
    method TryAcquireRequestSlot(others: seq<int>) returns (acquired: bool, rounds: nat)
      modifies this`activeRequests
      ensures lim.maxConcurrent <= 0 ==> acquired && activeRequests == old(activeRequests)
      ensures rounds <= |others|
      ensures lim.maxConcurrent > 0 ==>
                var found := if rounds == 0 then old(activeRequests) else others[rounds - 1];
                && (acquired <==> found < lim.maxConcurrent)
                && activeRequests == (if acquired then found + 1 else found)
    {
      rounds := 0;
      if lim.maxConcurrent <= 0 {
        return true, 0;
      }
      while true
        invariant rounds <= |others|
        invariant activeRequests == if rounds == 0 then old(activeRequests) else others[rounds - 1]
        decreases |others| - rounds
      {
        var current := activeRequests;
        if current >= lim.maxConcurrent {
          return false, rounds;
        }
        var undisturbed := rounds == |others|;
        if !undisturbed {
          activeRequests := others[rounds];
          rounds := rounds + 1;
        }
        var swapped := CompareAndSwap(current, current + 1);
        if swapped {
          return true, rounds;
        }
      }
    }

    method ReleaseRequestSlot()
      modifies this`activeRequests
      ensures activeRequests == old(activeRequests) - if lim.maxConcurrent <= 0 then 0 else 1
    {
      if lim.maxConcurrent <= 0 {
        return;
      }
      activeRequests := activeRequests - 1;
    }

    method TryAcquirePerIPSlot(ip: string) returns (acquired: bool)
      modifies this`perIPRequests
      ensures (perIPRequests, acquired) == AcquireIP(lim, old(perIPRequests), ip)
    {
      if lim.maxPerIP <= 0 {
        return true;
      }
      if ip !in perIPRequests {
        perIPRequests := perIPRequests[ip := 0];
      }
      var current := perIPRequests[ip];
      if current >= lim.maxPerIP {
        return false;
      }
      perIPRequests := perIPRequests[ip := perIPRequests[ip] + 1];
      return true;
    }

    method ReleasePerIPSlot(ip: string)
      modifies this`perIPRequests
      ensures perIPRequests == ReleaseIP(lim, old(perIPRequests), ip)
    {
      if lim.maxPerIP <= 0 {
        return;
      }
      if ip !in perIPRequests {
        return;
      }
      var current := perIPRequests[ip] - 1;
      perIPRequests := perIPRequests[ip := current];
      if current <= 0 {
        perIPRequests := perIPRequests - {ip};
      }
    }
  }

  // ---------- any interleaving of requests ----------

  /** Where a request stands between its atomic steps. */
  datatype Phase =
    | Arrived              // has nothing yet
    | Counted              // holds its per-client slot, about to load the counter
    | Loaded(seen: int)    // read the counter, about to swap
    | Holding              // holds both slots, being served
    | Leaving              // about to give back the per-client slot
    | Finished

  datatype Request = Request(ip: string, phase: Phase)

  datatype State = State(active: int, perIP: map<string, int>, requests: map<int, Request>)

  const START := State(0, map[], map[])

  /** The scheduler's choice: a new request, or one more atomic step of an old one. */
  datatype Event = Arrive(id: int, ip: string) | Run(id: int)

  function Move(s: State, id: int, phase: Phase): State
    requires id in s.requests
  {
    s.(requests := s.requests[id := s.requests[id].(phase := phase)])
  }

  /** The one atomic step request id takes next. */
  function Advance(lim: Limits, s: State, id: int): State
    requires id in s.requests
  {
    var ip := s.requests[id].ip;
    match s.requests[id].phase
    case Arrived =>
      var (perIP, acquired) := AcquireIP(lim, s.perIP, ip);
      Move(s.(perIP := perIP), id, if acquired then Counted else Finished)
    case Counted =>
      if lim.maxConcurrent <= 0 then Move(s, id, Holding)
      else if s.active >= lim.maxConcurrent then Move(s, id, Leaving)
      else Move(s, id, Loaded(s.active))
    case Loaded(seen) =>
      if s.active == seen then Move(s.(active := seen + 1), id, Holding) else Move(s, id, Counted)
    case Holding =>
      Move(if lim.maxConcurrent <= 0 then s else s.(active := s.active - 1), id, Leaving)
    case Leaving =>
      Move(s.(perIP := ReleaseIP(lim, s.perIP, ip)), id, Finished)
    case Finished => s
  }

  function Apply(lim: Limits, s: State, e: Event): State {
    match e
    case Arrive(id, ip) => if id in s.requests then s else s.(requests := s.requests[id := Request(ip, Arrived)])
    case Run(id) => if id in s.requests then Advance(lim, s, id) else s
  }

  /** The state after the first n events. */
  function After(lim: Limits, events: seq<Event>, n: nat): State
    requires n <= |events|
  {
    if n == 0 then START else Apply(lim, After(lim, events, n - 1), events[n - 1])
  }

  predicate HoldsIP(p: Phase) {
    p.Counted? || p.Loaded? || p.Holding? || p.Leaving?
  }

  ghost function Holders(s: State): set<int> {
    set id | id in s.requests && s.requests[id].phase.Holding?
  }

  ghost function HoldersOf(s: State, ip: string): set<int> {
    set id | id in s.requests && s.requests[id].ip == ip && HoldsIP(s.requests[id].phase)
  }

  /** Every counter is the number of requests that hold it, within its limit, and a client is in the
      map exactly while it holds something. */
  ghost predicate CountersExact(lim: Limits, s: State) {
    && ActiveExact(lim, s)
    && (forall ip :: CounterExact(lim, s, ip))
  }

  ghost predicate ActiveExact(lim: Limits, s: State) {
    && (if lim.maxConcurrent > 0 then s.active == |Holders(s)| <= lim.maxConcurrent else s.active == 0)
    && (forall id :: id in s.requests && s.requests[id].phase.Loaded? ==>
          0 < lim.maxConcurrent && s.requests[id].phase.seen < lim.maxConcurrent)
  }

  ghost predicate CounterExact(lim: Limits, s: State, ip: string) {
    if lim.maxPerIP <= 0 then ip !in s.perIP
    else if ip in s.perIP then 0 < s.perIP[ip] == |HoldersOf(s, ip)| <= lim.maxPerIP
    else HoldersOf(s, ip) == {}
  }

  /** s' differs from s in where request id stands, and in the counters. */
  predicate OnlyMoved(s: State, s': State, id: int) {
    && id in s.requests && id in s'.requests
    && s'.requests == s.requests[id := s'.requests[id]]
    && s'.requests[id].ip == s.requests[id].ip
  }

  lemma HoldersAfter(s: State, s': State, id: int)
    requires OnlyMoved(s, s', id)
    ensures Holders(s') == if s'.requests[id].phase.Holding? then Holders(s) + {id} else Holders(s) - {id}
  {
  }

  lemma HoldersOfAfter(s: State, s': State, id: int, ip: string)
    requires OnlyMoved(s, s', id)
    ensures HoldersOf(s', ip) ==
            if s.requests[id].ip != ip then HoldersOf(s, ip)
            else if HoldsIP(s'.requests[id].phase) then HoldersOf(s, ip) + {id}
            else HoldersOf(s, ip) - {id}
  {
  }

  /** The shared counter moves with the request that moves it. */
  lemma ActiveFollows(lim: Limits, s: State, s': State, id: int)
    requires OnlyMoved(s, s', id) && ActiveExact(lim, s)
    requires var was, now := s.requests[id].phase, s'.requests[id].phase;
             && (now.Loaded? ==> 0 < lim.maxConcurrent && now.seen < lim.maxConcurrent)
             && (if lim.maxConcurrent <= 0 then s'.active == s.active
                 else if now.Holding? && !was.Holding? then s'.active == s.active + 1 <= lim.maxConcurrent
                 else if was.Holding? && !now.Holding? then s'.active == s.active - 1
                 else s'.active == s.active)
    ensures ActiveExact(lim, s')
  {
    HoldersAfter(s, s', id);
    assert id in Holders(s) <==> s.requests[id].phase.Holding?;
  }

  lemma StepKeepsActive(lim: Limits, s: State, id: int)
    requires ActiveExact(lim, s) && id in s.requests
    ensures ActiveExact(lim, Advance(lim, s, id))
  {
    ActiveFollows(lim, s, Advance(lim, s, id), id);
  }

  /** A client's counter moves with the request that moves it. */
  lemma CounterFollows(lim: Limits, s: State, s': State, id: int, ip: string)
    requires OnlyMoved(s, s', id) && CounterExact(lim, s, ip)
    requires var was, now := HoldsIP(s.requests[id].phase), HoldsIP(s'.requests[id].phase);
             var mine := s.requests[id].ip;
             if was == now then s'.perIP == s.perIP
             else if now then (s'.perIP, true) == AcquireIP(lim, s.perIP, mine)
             else s'.perIP == ReleaseIP(lim, s.perIP, mine)
    ensures CounterExact(lim, s', ip)
  {
    HoldersOfAfter(s, s', id, ip);
    assert id in HoldersOf(s, ip) <==> s.requests[id].ip == ip && HoldsIP(s.requests[id].phase);
  }

  lemma {:induction false} StepKeepsCounter(lim: Limits, s: State, id: int, ip: string)
    requires CounterExact(lim, s, ip) && id in s.requests
    ensures CounterExact(lim, Advance(lim, s, id), ip)
  {
    CounterFollows(lim, s, Advance(lim, s, id), id, ip);
  }

  lemma StepKeepsCounters(lim: Limits, s: State, id: int)
    requires CountersExact(lim, s) && id in s.requests
    ensures CountersExact(lim, Advance(lim, s, id))
  {
    StepKeepsActive(lim, s, id);
    forall ip
      ensures CounterExact(lim, Advance(lim, s, id), ip)
    {
      StepKeepsCounter(lim, s, id, ip);
    }
  }

  lemma ArrivalKeepsCounters(lim: Limits, s: State, id: int, ip: string)
    requires CountersExact(lim, s)
    ensures CountersExact(lim, Apply(lim, s, Arrive(id, ip)))
  {
    var s' := Apply(lim, s, Arrive(id, ip));
    assert Holders(s') == Holders(s);
    forall c
      ensures CounterExact(lim, s', c)
    {
      assert CounterExact(lim, s, c);
      assert HoldersOf(s', c) == HoldersOf(s, c);
    }
  }

  /** For every interleaving, after every step: counters equal holders and stay within the limits. */
  lemma {:induction false} CountersAlwaysExact(lim: Limits, events: seq<Event>, n: nat)
    requires n <= |events|
    ensures CountersExact(lim, After(lim, events, n))
  {
    if n > 0 {
      CountersAlwaysExact(lim, events, n - 1);
      var s, e := After(lim, events, n - 1), events[n - 1];
      if e.Arrive? {
        ArrivalKeepsCounters(lim, s, e.id, e.ip);
      } else if e.id in s.requests {
        StepKeepsCounters(lim, s, e.id);
      }
    } else {
      assert Holders(START) == {};
      assert forall ip :: HoldersOf(START, ip) == {};
    }
  }

  /** A step of a request, in any interleaving: it is refused a per-client slot exactly if its client holds as many
      as the limit allows, turned away exactly if as many requests are being served as the other limit allows, and
      its swap succeeds exactly if the counter is still what it saw. */
  lemma {:induction false} RefusedExactlyAtLimit(lim: Limits, events: seq<Event>, n: nat)
    requires n < |events| && events[n].Run? && events[n].id in After(lim, events, n).requests
    ensures var s, t, id := After(lim, events, n), After(lim, events, n + 1), events[n].id;
            var ip, now := s.requests[id].ip, t.requests[id].phase;
            match s.requests[id].phase
            case Arrived => now == if lim.maxPerIP > 0 && |HoldersOf(s, ip)| >= lim.maxPerIP then Finished else Counted
            case Counted =>
              now == if lim.maxConcurrent <= 0 then Holding
                     else if |Holders(s)| >= lim.maxConcurrent then Leaving else Loaded(|Holders(s)|)
            case Loaded(seen) => now == if |Holders(s)| == seen then Holding else Counted
            case Holding => now == Leaving
            case Leaving => now == Finished
            case Finished => now == Finished
  {
    CountersAlwaysExact(lim, events, n);
    var s := After(lim, events, n);
    assert ActiveExact(lim, s) && CounterExact(lim, s, s.requests[events[n].id].ip);
  }

  predicate AllFinished(s: State) {
    forall id :: id in s.requests ==> s.requests[id].phase.Finished?
  }

  lemma NobodyHolds(s: State, ip: string)
    requires AllFinished(s)
    ensures Holders(s) == {} && HoldersOf(s, ip) == {}
  {
    forall id | id in Holders(s) || id in HoldersOf(s, ip)
      ensures false
    {
      assert s.requests[id].phase.Finished?;
    }
  }

  /** Once every request is done, also those whose second acquire failed, nothing is left behind. */
  lemma NothingLeaks(lim: Limits, events: seq<Event>, n: nat)
    requires n <= |events|
    requires AllFinished(After(lim, events, n))
    ensures After(lim, events, n).active == 0 && After(lim, events, n).perIP == map[]
  {
    var s := After(lim, events, n);
    CountersAlwaysExact(lim, events, n);
    NobodyHolds(s, "");
    forall ip
      ensures ip !in s.perIP
    {
      assert CounterExact(lim, s, ip);
      NobodyHolds(s, ip);
    }
  }

  /** Event k takes or gives back a request slot. */
  predicate MovesCounter(lim: Limits, events: seq<Event>, k: nat)
    requires k < |events|
  {
    After(lim, events, k).active != After(lim, events, k + 1).active
  }

  lemma {:induction false} CounterMoved(lim: Limits, events: seq<Event>, a: nat, b: nat) returns (k: nat)
    requires a <= b <= |events| && After(lim, events, a).active != After(lim, events, b).active
    ensures a <= k < b && MovesCounter(lim, events, k)
    decreases b
  {
    if After(lim, events, b - 1).active != After(lim, events, b).active {
      k := b - 1;
    } else {
      k := CounterMoved(lim, events, a, b - 1);
    }
  }

  lemma {:induction false} SeenWasLoaded(lim: Limits, events: seq<Event>, id: int, n: nat) returns (a: nat)
    requires n <= |events|
    requires id in After(lim, events, n).requests && After(lim, events, n).requests[id].phase.Loaded?
    ensures a <= n && After(lim, events, a).active == After(lim, events, n).requests[id].phase.seen
    ensures forall k :: a <= k < n ==> events[k].id != id || events[k].Arrive?
  {
    var s := After(lim, events, n - 1);
    var e := events[n - 1];
    if e.Run? && e.id == id {
      a := n;
    } else {
      a := SeenWasLoaded(lim, events, id, n - 1);
    }
  }

  /** The swap loop is lock-free: a swap fails only because, since the load, another request took or
      gave back a slot. */
  lemma FailedSwapMeansProgress(lim: Limits, events: seq<Event>, n: nat) returns (k: nat)
    requires n < |events| && events[n].Run?
    requires var s := After(lim, events, n);
             events[n].id in s.requests && s.requests[events[n].id].phase.Loaded?
             && After(lim, events, n + 1).requests[events[n].id].phase.Counted?
    ensures k < n && MovesCounter(lim, events, k)
    ensures events[k].Run? && events[k].id != events[n].id
  {
    var a := SeenWasLoaded(lim, events, events[n].id, n);
    k := CounterMoved(lim, events, a, n);
  }
}
