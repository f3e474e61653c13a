/** The retry loop of the HTTP handler and the pool of response buffers it works with.
    Durations are milliseconds. */
module RetryLoop {
  import opened Common
  import opened Text

  const OK := 200
  const BAD_GATEWAY := 502
  const GATEWAY_TIMEOUT := 504

  // ---------- the policy ----------

  datatype Policy = Policy(
    enabled: bool,
    attempts: int,
    statuses: set<int>,
    backoff: int,
    maxBackoff: int,
    jitterPercent: int,
    exponential: bool,
    retryOn5xx: bool,
    retryOnTimeout: bool,
    retryOnConnection: bool)

  /** What the loop's decision to retry at all looks at; `replayable` means a body can be had again. */
  datatype Request = Request(verb: string, hasBody: bool, replayable: bool, upgrade: bool)

  function EffectiveAttempts(p: Policy, req: Request): int {
    if !p.enabled || p.attempts <= 1 then 1
    else if Upper(Trim(req.verb)) !in ["GET", "HEAD", "OPTIONS"] then 1
    else if !req.replayable && req.hasBody then 1
    else if req.upgrade then 1
    else p.attempts
  }

  predicate ShouldRetry(p: Policy, status: int) {
    if !p.enabled then false
    else if p.statuses != {} then status in p.statuses
    else (p.retryOnTimeout && status == GATEWAY_TIMEOUT)
         || (p.retryOnConnection && status == BAD_GATEWAY)
         || (p.retryOn5xx && status >= 500)
  }

  /** `draw` stands for the random source. */
  function BackoffDelay(p: Policy, attempt: nat, draw: nat): int {
    if !p.enabled || p.backoff <= 0 then 0
    else
      var delay := CappedDelay(p, attempt);
      if p.jitterPercent <= 0 then delay
      else
        var range := delay * p.jitterPercent / 100;
        if range <= 0 then delay else Jittered(delay, range, draw)
  }

  function CappedDelay(p: Policy, attempt: nat): int {
    var wanted := if p.exponential then Pow2(attempt) * p.backoff else p.backoff;
    if p.maxBackoff > 0 && wanted > p.maxBackoff then p.maxBackoff else wanted
  }

  function Jittered(delay: int, range: int, draw: nat): int
    requires range > 0
  {
    Max(0, delay + draw % (range * 2 + 1) - range)
  }

  lemma RangeWithinDelay(delay: int, percent: int)
    requires delay >= 0 && 0 < percent <= 100
    ensures 0 <= delay * percent / 100 <= delay
  {
    assert delay * percent <= delay * 100;
    assert delay * percent >= 0;
  }

  lemma JitteredBounded(delay: int, range: int, draw: nat)
    requires 0 < range <= delay
    ensures 0 <= Jittered(delay, range, draw) <= 2 * delay
  {
    assert 0 <= draw % (range * 2 + 1) <= range * 2;
  }

  lemma ExponentialGrows(p: Policy, attempt: nat)
    requires p.backoff > 0
    ensures Pow2(attempt) * p.backoff >= p.backoff
  {
    Pow2Grows(attempt, attempt);
  }

  /** Whatever the attempt and the random source, a delay stays within twice the configured maximum. */
  lemma DelayBounded(p: Policy, attempt: nat, draw: nat)
    requires p.maxBackoff > 0 && p.jitterPercent <= 100
    ensures 0 <= BackoffDelay(p, attempt, draw) <= 2 * p.maxBackoff
  {
    if p.enabled && p.backoff > 0 {
      ExponentialGrows(p, attempt);
      var delay := CappedDelay(p, attempt);
      if p.jitterPercent > 0 {
        RangeWithinDelay(delay, p.jitterPercent);
        if delay * p.jitterPercent / 100 > 0 {
          JitteredBounded(delay, delay * p.jitterPercent / 100, draw);
        }
      }
    }
  }

  function Unjittered(p: Policy): Policy {
    p.(jitterPercent := 0)
  }

  /** Without jitter: none if disabled; always the backoff, up to the maximum, if it is fixed; twice the delay
      before it, up to the maximum, if it is exponential. */
  lemma DelayDoubles(p: Policy, attempt: nat, draw: nat)
    ensures !p.enabled || p.backoff <= 0 ==> BackoffDelay(p, attempt, draw) == 0
    ensures p.enabled && p.backoff > 0 ==>
              var first := BackoffDelay(Unjittered(p), 0, draw);
              var delay, next := BackoffDelay(Unjittered(p), attempt, draw), BackoffDelay(Unjittered(p), attempt + 1, draw);
              && first == (if 0 < p.maxBackoff < p.backoff then p.maxBackoff else p.backoff)
              && (!p.exponential ==> delay == first)
              && (p.exponential ==> next == if 0 < p.maxBackoff < 2 * delay then p.maxBackoff else 2 * delay)
  {
    if p.enabled && p.backoff > 0 {
      ExponentialGrows(p, attempt);
      DoubleOf(Pow2(attempt), p.backoff);
    }
  }

  lemma DoubleOf(x: int, y: int)
    ensures 2 * x * y == 2 * (x * y)
  {
  }

  /** Jitter moves the delay by at most its percentage, any whole number either way, and not below zero. */
  lemma JitterMoves(p: Policy, attempt: nat, draw: nat)
    requires p.enabled && p.backoff > 0 && p.jitterPercent > 0
    ensures var delay := BackoffDelay(Unjittered(p), attempt, draw);
            var range := delay * p.jitterPercent / 100;
            && (range <= 0 ==> BackoffDelay(p, attempt, draw) == delay)
            && (range > 0 ==> Max(0, delay - range) <= BackoffDelay(p, attempt, draw) <= delay + range)
            && forall shift :: 0 <= shift <= 2 * range && range > 0 ==>
                 BackoffDelay(p, attempt, shift) == Max(0, delay - range + shift)
  {
    ExponentialGrows(p, attempt);
    var delay := CappedDelay(p, attempt);
    assert CappedDelay(Unjittered(p), attempt) == delay;
    var range := delay * p.jitterPercent / 100;
    if range > 0 {
      assert 0 <= draw % (range * 2 + 1) <= range * 2;
      forall shift | 0 <= shift <= 2 * range
        ensures Jittered(delay, range, shift) == Max(0, delay - range + shift)
      {
        SmallRemainder(shift, range * 2 + 1);
      }
    }
  }

  lemma SmallRemainder(x: nat, n: nat)
    requires x < n
    ensures x % n == x
  {
  }

  // ---------- the outcome of one request ----------

  datatype Response = Response(status: int, header: map<string, seq<string>>, body: seq<bv8>)

  const BLANK := Response(OK, map[], [])

  /** The text "upstream timeout". */
  const TIMEOUT_BODY: seq<bv8> := [0x75, 0x70, 0x73, 0x74, 0x72, 0x65, 0x61, 0x6d, 0x20, 0x74, 0x69, 0x6d, 0x65, 0x6f, 0x75, 0x74]

  const UPSTREAM_TIMEOUT := Response(GATEWAY_TIMEOUT, map[], TIMEOUT_BODY)

  /** What the world does at one attempt: the target picked (if any), whether the request body can be
      had again, the upstream's answer, the random draw of the backoff delay, and whether the request
      is cancelled during that delay. */
  datatype Attempt = Attempt(
    target: Option<string>, bodyAgain: bool, answer: Response, draw: nat, cancelled: bool)

  /** A finished call, as reported to the target's health: its answer is a failure from 500 on. */
  datatype Call = Call(target: string, failure: bool)

  datatype Outcome = Outcome(
    status: int, upstream: string, response: Response, calls: seq<Call>, timedOut: bool)

  const NOTHING := Outcome(BAD_GATEWAY, "", BLANK, [], false)

  /** Attempt k cannot be made. */
  predicate Unavailable(e: Attempt, k: nat) {
    e.target.None? || (k > 0 && !e.bodyAgain)
  }

  predicate CancelledIn(p: Policy, e: Attempt, k: nat) {
    BackoffDelay(p, k, e.draw) > 0 && e.cancelled
  }

  function Answered(o: Outcome, e: Attempt): Outcome
    requires e.target.Some?
  {
    Outcome(e.answer.status, e.target.value, e.answer,
            o.calls + [Call(e.target.value, e.answer.status >= 500)], false)
  }

  /** Attempt k: the outcome after it, and whether another attempt follows. */
  function Step(p: Policy, attempts: nat, e: Attempt, k: nat, o: Outcome): (Outcome, bool) {
    if Unavailable(e, k) then (o, false)
    else
      var a := Answered(o, e);
      if !ShouldRetry(p, a.status) || k + 1 >= attempts then (a, false)
      else if CancelledIn(p, e, k) then
        (a.(status := GATEWAY_TIMEOUT, response := UPSTREAM_TIMEOUT, timedOut := true), false)
      else (a, true)
  }

  /** The loop from attempt k on, with what the earlier attempts left. */
  function From(p: Policy, attempts: nat, env: seq<Attempt>, k: nat, o: Outcome): Outcome
    requires attempts <= |env|
    decreases attempts - k
  {
    if k >= attempts then o
    else
      var (a, more) := Step(p, attempts, env[k], k, o);
      if more then From(p, attempts, env, k + 1, a) else a
  }

  lemma FromOneMore(p: Policy, attempts: nat, env: seq<Attempt>, k: nat, o: Outcome)
    requires k < attempts <= |env|
    ensures var (a, more) := Step(p, attempts, env[k], k, o);
            From(p, attempts, env, k, o) == if more then From(p, attempts, env, k + 1, a) else a
    ensures Unavailable(env[k], k) ==> From(p, attempts, env, k, o) == o
  {
  }

  /** The answers worth another attempt: the listed ones, or without a list timeouts, failed connections and
      server errors, as configured. */
  ghost predicate Retryable(p: Policy, status: int) {
    && p.enabled
    && (p.statuses != {} ==> status in p.statuses)
    && (p.statuses == {} ==>
          (p.retryOnTimeout && status == 504) || (p.retryOnConnection && status == 502) || (p.retryOn5xx && status >= 500))
  }

  lemma RetryableIs(p: Policy, status: int)
    ensures ShouldRetry(p, status) <==> Retryable(p, status)
  {
  }

  /** There is a target, and the body for it. */
  ghost predicate CanBeMade(e: Attempt, k: nat) {
    e.target.Some? && (k == 0 || e.bodyAgain)
  }

  /** After attempt j another one is due: it got a retryable answer, attempts are left, and the wait
      was not cut short. */
  ghost predicate GoesOn(p: Policy, attempts: nat, env: seq<Attempt>, j: nat)
    requires j < attempts <= |env|
  {
    && CanBeMade(env[j], j)
    && Retryable(p, env[j].answer.status) && j + 1 < attempts
    && (env[j].cancelled ==> BackoffDelay(p, j, env[j].draw) <= 0)
  }

  /** The answer to a request that ran out of time while waiting. */
  ghost predicate IsTimeout(r: Response) {
    r.status == 504 && r.header == map[] && r.body == TIMEOUT_BODY
  }

  lemma TimeoutSays()
    ensures |TIMEOUT_BODY| == |"upstream timeout"|
    ensures forall i :: 0 <= i < |TIMEOUT_BODY| ==> TIMEOUT_BODY[i] as int == "upstream timeout"[i] as int
  {
  }

  predicate Extends(a: seq<Call>, b: seq<Call>) {
    |a| <= |b| && forall j :: 0 <= j < |a| ==> b[j] == a[j]
  }

  predicate IsCall(env: seq<Attempt>, j: nat, c: Call)
    requires j < |env|
  {
    env[j].target == Some(c.target) && (c.failure <==> env[j].answer.status >= 500)
  }

  /** What the outcome is, once m calls were made: nothing, the last answer, or a timeout in place of it. */
  ghost predicate Concludes(p: Policy, attempts: nat, env: seq<Attempt>, m: nat, o: Outcome)
    requires m <= attempts <= |env|
  {
    if m == 0 then o == Outcome(502, "", Response(200, map[], []), [], false)
    else
      var e := env[m - 1];
      && e.target == Some(o.upstream)
      && (o.timedOut <==>
            Retryable(p, e.answer.status) && m < attempts && e.cancelled && BackoffDelay(p, m - 1, e.draw) > 0)
      && (!o.timedOut ==> o.status == e.answer.status && o.response == e.answer)
      && (o.timedOut ==> o.status == 504 && IsTimeout(o.response))
  }

  lemma StepFacts(p: Policy, attempts: nat, env: seq<Attempt>, k: nat, o: Outcome)
    requires k < attempts <= |env| && |o.calls| == k && !o.timedOut && Concludes(p, attempts, env, k, o)
    requires k > 0 ==> GoesOn(p, attempts, env, k - 1)
    ensures var (a, more) := Step(p, attempts, env[k], k, o);
            && (more <==> GoesOn(p, attempts, env, k))
            && (!CanBeMade(env[k], k) ==> a == o)
            && (CanBeMade(env[k], k) ==>
                  && |a.calls| == k + 1 && Extends(o.calls, a.calls) && IsCall(env, k, a.calls[k])
                  && Concludes(p, attempts, env, k + 1, a) && (more ==> !a.timedOut))
  {
    hide BackoffDelay;
    RetryableIs(p, env[k].answer.status);
  }

  lemma {:induction false} FromRuns(p: Policy, attempts: nat, env: seq<Attempt>, k: nat, o: Outcome) returns (m: nat)
    requires k < attempts <= |env| && |o.calls| == k && !o.timedOut
    requires Concludes(p, attempts, env, k, o)
    requires k > 0 ==> GoesOn(p, attempts, env, k - 1)
    ensures var r := From(p, attempts, env, k, o);
            && k <= m == |r.calls| <= attempts && Extends(o.calls, r.calls)
            && (forall j :: k <= j < m ==> CanBeMade(env[j], j) && IsCall(env, j, r.calls[j]))
            && (forall j :: k <= j < m - 1 ==> GoesOn(p, attempts, env, j))
            && (m < attempts ==> !CanBeMade(env[m], m) || (m > 0 && !GoesOn(p, attempts, env, m - 1)))
            && Concludes(p, attempts, env, m, r)
    decreases attempts - k
  {
    hide Step, Concludes, IsCall, CanBeMade, Unavailable, BackoffDelay, Retryable;
    StepFacts(p, attempts, env, k, o);
    var (a, more) := Step(p, attempts, env[k], k, o);
    if more {
      m := FromRuns(p, attempts, env, k + 1, a);
      assert From(p, attempts, env, k + 1, a).calls[k] == a.calls[k];
    } else {
      m := |a.calls|;
    }
  }

  /** The loop makes m calls, the first m attempts in order, where m is determined by: every call but
      the last got a retryable answer and an undisturbed wait, and after the last the attempts are used
      up, none is possible, or none is due. The result is the last answer, or the timeout. */
  lemma RetriesStopInTime(p: Policy, attempts: nat, env: seq<Attempt>) returns (m: nat)
    requires 0 < attempts <= |env|
    ensures var o := From(p, attempts, env, 0, NOTHING);
            && m == |o.calls| <= attempts
            && (forall j :: 0 <= j < m ==> CanBeMade(env[j], j) && IsCall(env, j, o.calls[j]))
            && (forall j :: 0 <= j < m - 1 ==> GoesOn(p, attempts, env, j))
            && (m < attempts ==> !CanBeMade(env[m], m) || (m > 0 && !GoesOn(p, attempts, env, m - 1)))
            && Concludes(p, attempts, env, m, o)
  {
    m := FromRuns(p, attempts, env, 0, NOTHING);
  }

  predicate SafeToRepeat(req: Request) {
    && Upper(Trim(req.verb)) in {"GET", "HEAD", "OPTIONS"}
    && (req.replayable || !req.hasBody) && !req.upgrade
  }

  /** The calls the handler makes for a request; a single attempt does not go through the loop. */
  function CallsMade(p: Policy, req: Request, env: seq<Attempt>): seq<Call>
    requires EffectiveAttempts(p, req) <= |env| && env != []
  {
    if EffectiveAttempts(p, req) > 1 then From(p, EffectiveAttempts(p, req), env, 0, NOTHING).calls
    else if Unavailable(env[0], 0) then []
    else Answered(NOTHING, env[0]).calls
  }

  /** A request is sent more than j times exactly when it may be repeated, so many attempts are configured, every
      one of the first j answers was retryable and the wait after it passed, and there is a target and a body for
      one more; the first time it needs a target only. */
  lemma {:induction false} SentAgainExactly(p: Policy, req: Request, env: seq<Attempt>, j: nat)
    requires EffectiveAttempts(p, req) <= |env| && env != []
    ensures j > 0 ==>
              (|CallsMade(p, req, env)| > j <==>
               && SafeToRepeat(req) && p.enabled && j < p.attempts <= |env|
               && (forall i :: 0 <= i < j ==> GoesOn(p, p.attempts, env, i)) && CanBeMade(env[j], j))
    ensures CallsMade(p, req, env) == [] <==> env[0].target.None?
  {
    hide BackoffDelay;
    var attempts := EffectiveAttempts(p, req);
    if attempts > 1 {
      var m := RetriesStopInTime(p, attempts, env);
      if m <= j < attempts {
        assert !CanBeMade(env[m], m) && m < j ==> !GoesOn(p, attempts, env, m);
        assert CanBeMade(env[m], m) ==> m > 0 && !GoesOn(p, attempts, env, m - 1);
      }
    }
  }

  // ---------- buffers and their pool ----------

  class Buffer {
    var header: map<string, seq<string>>
    var body: seq<bv8>
    var status: int

    constructor ()
      ensures header == map[] && body == [] && status == OK
    {
      header, body, status := map[], [], OK;
    }

    function Value(): Response
      reads this
    {
      Response(status, header, body)
    }
  }

  class BufferPool {
    var free: set<Buffer>
    /** Buffers handed out and not put back. */
    ghost var out: set<Buffer>

    ghost predicate Valid()
      reads this
    {
      free !! out
    }

    constructor ()
      ensures Valid() && free == {} && out == {}
    {
      free := {};
      out := {};
    }

    /** Any pooled buffer, or a new one, reset. */
    method Get() returns (b: Buffer)
      requires Valid()
      modifies this, free
      ensures Valid() && b.Value() == BLANK
      ensures b in old(free) || fresh(b)
      ensures free == old(free) - {b} && out == old(out) + {b} && b !in old(out)
    {
      var reuse: bool := *;
      if reuse && free != {} {
        b :| b in free;
        free := free - {b};
        b.header, b.body, b.status := map[], [], OK;
      } else {
        b := new Buffer();
      }
      out := out + {b};
    }

    /** Only a buffer that was handed out and not put back may be put: no buffer is pooled twice. */
    method Put(b: Buffer)
      requires Valid() && b in out
      modifies this
      ensures Valid() && free == old(free) + {b} && out == old(out) - {b}
    {
      free := free + {b};
      out := out - {b};
    }
  }

  /** How many buffers a request leaves to the garbage collector instead of the pool. */
  ghost function Unpooled(p: Policy, attempts: nat, o: Outcome): nat {
    if o.timedOut then 2
    else if |o.calls| == 0 || (|o.calls| < attempts && Retryable(p, o.status)) then 0
    else 1
  }

  /** The buffers out now are those out before, the one in use, and those never to be put back. */
  ghost predicate Accounted(pool: BufferPool, before: set<Buffer>, final: Buffer, lost: set<Buffer>)
    reads pool
  {
    final !in lost && final !in before && lost !! before && pool.out == before + lost + {final}
  }

  lemma FirstOut(pool: BufferPool, before: set<Buffer>, final: Buffer)
    requires final !in before && pool.out == before + {final}
    ensures Accounted(pool, before, final, {})
  {
  }

  method Serve(captured: Buffer, answer: Response)
    modifies captured
    ensures captured.Value() == answer
  {
    captured.header := answer.header;
    captured.status := answer.status;
    captured.body := answer.body;
  }

  /** One pass through the loop up to the upstream's answer: the response before last goes back to the
      pool, and a new buffer takes the answer; null if there is no target or no body to send. */
  method Exchange(k: nat, e: Attempt, pool: BufferPool, final: Buffer, prev: Buffer?, ghost before: set<Buffer>)
    returns (captured: Buffer?)
    requires pool.Valid() && Accounted(pool, before, final, if prev == null then {} else {prev})
    modifies pool, pool.free, prev
    ensures pool.Valid() && final.Value() == old(final.Value())
    ensures captured == null <==> Unavailable(e, k)
    ensures captured == null ==> Accounted(pool, before, final, {})
    ensures captured != null ==> captured.Value() == e.answer && Accounted(pool, before, captured, {final})
    ensures captured != null ==> captured in old(pool.free) || captured == prev || fresh(captured)
    ensures pool.free <= old(pool.free) + if prev == null then {} else {prev}
  {
    if prev != null {
      pool.Put(prev);
    }
    if e.target.None? {
      return null;
    }
    if k > 0 && !e.bodyAgain {
      return null;
    }
    captured := pool.Get();
    Serve(captured, e.answer);
  }

  /** What follows an answer: give up, or wait and go on; cut short, the wait turns into a timeout. */
  method AfterAnswer(p: Policy, attempts: nat, e: Attempt, k: nat, o: Outcome) returns (next: Outcome, more: bool)
    requires !Unavailable(e, k) && k < attempts
    ensures var s := Step(p, attempts, e, k, o);
            s == (if next.timedOut then next.(response := UPSTREAM_TIMEOUT) else next, more)
    ensures next.response == e.answer && |next.calls| == |o.calls| + 1 && (more ==> !next.timedOut)
    ensures more ==> ShouldRetry(p, next.status) && k + 1 < attempts
    ensures !more && !next.timedOut ==> !ShouldRetry(p, next.status) || k + 1 == attempts
  {
    next := Answered(o, e);
    if !ShouldRetry(p, next.status) {
      return next, false;
    }
    if k + 1 >= attempts {
      return next, false;
    }
    var delay := BackoffDelay(p, k, e.draw);
    if delay > 0 && e.cancelled {
      return next.(status := GATEWAY_TIMEOUT, timedOut := true), false;
    }
    more := true;
  }

  /** The loop over attempts; after a timeout the response is still the last answer. */
  method Attempts(p: Policy, attempts: nat, env: seq<Attempt>, pool: BufferPool)
    returns (o: Outcome, finalResponse: Buffer, ghost lost: set<Buffer>)
    requires pool.Valid() && 1 < attempts <= |env|
    modifies pool, pool.free
    ensures o.response == finalResponse.Value()
    ensures From(p, attempts, env, 0, NOTHING) == if o.timedOut then o.(response := UPSTREAM_TIMEOUT) else o
    ensures pool.Valid() && Accounted(pool, old(pool.out), finalResponse, lost)
    ensures fresh(pool.free + {finalResponse} - old(pool.free))
    ensures |lost| + (if o.timedOut then 1 else 0) == Unpooled(p, attempts, o)
  {
    hide From, Step, BackoffDelay, ShouldRetry, Retryable, Unavailable, Accounted;
    ghost var before, free0 := pool.out, pool.free;
    o := NOTHING;
    finalResponse := pool.Get();
    FirstOut(pool, before, finalResponse);
    var prevCaptured: Buffer? := null;
    lost := {};
    var attempt := 0;
    while attempt < attempts
      invariant 0 <= attempt < attempts && |o.calls| == attempt
      invariant pool.Valid() && Accounted(pool, before, finalResponse, lost)
      invariant lost == if prevCaptured == null then {} else {prevCaptured}
      invariant fresh(pool.free + {finalResponse} + lost - free0)
      invariant attempt > 0 ==> ShouldRetry(p, o.status)
      invariant !o.timedOut && o.response == finalResponse.Value()
      invariant From(p, attempts, env, 0, NOTHING) == From(p, attempts, env, attempt, o)
      decreases attempts - attempt
    {
      var e := env[attempt];
      FromOneMore(p, attempts, env, attempt, o);
      RetryableIs(p, o.status);
      var captured := Exchange(attempt, e, pool, finalResponse, prevCaptured, before);
      if captured == null {
        lost := {};
        return;
      }
      prevCaptured := finalResponse;
      finalResponse := captured;
      lost := {prevCaptured};
      var more;
      o, more := AfterAnswer(p, attempts, e, attempt, o);
      RetryableIs(p, o.status);
      if !more {
        return;
      }
      attempt := attempt + 1;
    }
  }

  method TimeoutBuffer(pool: BufferPool) returns (b: Buffer)
    requires pool.Valid()
    modifies pool, pool.free
    ensures pool.Valid() && b.Value() == UPSTREAM_TIMEOUT
    ensures pool.out == old(pool.out) + {b} && b !in old(pool.out)
  {
    b := pool.Get();
    b.status := GATEWAY_TIMEOUT;
    b.body := TIMEOUT_BODY;
  }

  /** The multi-attempt branch of the handler. The buffer of the final response is never in the pool
      while it is still to be written out, and every buffer goes back at most once. */
  method ServeWithRetries(p: Policy, attempts: nat, env: seq<Attempt>, pool: BufferPool) returns (o: Outcome)
    requires pool.Valid() && 1 < attempts <= |env|
    modifies pool, pool.free
    ensures o == From(p, attempts, env, 0, NOTHING)
    ensures pool.Valid() && old(pool.out) <= pool.out
    ensures |pool.out - old(pool.out)| == Unpooled(p, attempts, o)
  {
    ghost var before := pool.out;
    var finalResponse;
    ghost var lost;
    o, finalResponse, lost := Attempts(p, attempts, env, pool);
    if o.timedOut {
      lost := lost + {finalResponse};
      finalResponse := TimeoutBuffer(pool);
    }
    assert finalResponse !in pool.free;
    o := o.(response := finalResponse.Value());
    pool.Put(finalResponse);
    assert pool.out - before == lost;
  }
}
