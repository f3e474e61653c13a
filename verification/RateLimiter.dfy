/** The per-client token bucket with automatic blocking that guards every compiled site.
    Times are seconds (real); a Go zero time is None. */
module RateLimiter {
  import opened Common

  datatype AutoBlock = AutoBlock(enabled: bool, threshold: int, window: real, duration: real)

  datatype Config = Config(ratePerSec: real, burst: real, autoBlock: AutoBlock) {
    /** What site validation and the policy defaults guarantee about a limiter's settings. */
    predicate Valid() {
      && ratePerSec >= 0.0
      && burst >= 0.0
      && (autoBlock.enabled ==> autoBlock.threshold > 0 && autoBlock.window > 0.0 && autoBlock.duration > 0.0)
    }
  }

  /** The value of one bucketState. */
  datatype Bucket = Bucket(
    tokens: real,
    last: real,
    violationCount: int,
    windowStart: Option<real>,
    blockedUntil: Option<real>)

  datatype Decision = Decision(allowed: bool, blocked: bool, retryAfter: real)

  const REFUSED := Decision(false, false, 0.0)

  // ---------- one call, as a function of the bucket ----------

  function FreshBucket(cfg: Config, now: real): Bucket {
    Bucket(cfg.burst, now, 0, None, None)
  }

  function ClearBlock(b: Bucket): Bucket {
    b.(blockedUntil := None, violationCount := 0, windowStart := None)
  }

  predicate WindowOver(cfg: Config, b: Bucket, now: real) {
    b.windowStart.Some? && now - b.windowStart.value > cfg.autoBlock.window
  }

  function Violate(cfg: Config, b: Bucket, now: real): Bucket {
    var w := if b.windowStart.None? || WindowOver(cfg, b, now)
             then b.(windowStart := Some(now), violationCount := 0) else b;
    var c := w.(violationCount := w.violationCount + 1);
    if c.violationCount < cfg.autoBlock.threshold then c
    else c.(blockedUntil := Some(now + cfg.autoBlock.duration), violationCount := 0, windowStart := None)
  }

  predicate HeldAt(cfg: Config, b: Bucket, now: real) {
    cfg.autoBlock.enabled && b.blockedUntil.Some? && now < b.blockedUntil.value
  }

  /** Tokens that `elapsed` seconds bring in. */
  function Gain(cfg: Config, elapsed: real): real {
    elapsed * cfg.ratePerSec
  }

  function Refill(cfg: Config, b: Bucket, now: real): Bucket {
    var elapsed := if now - b.last < 0.0 then 0.0 else now - b.last;
    b.(last := now, tokens := MinReal(cfg.burst, b.tokens + Gain(cfg, elapsed)))
  }

  function Step(cfg: Config, b: Bucket, now: real): (Bucket, Decision) {
    if HeldAt(cfg, b, now) then
      (b, Decision(false, true, b.blockedUntil.value - now))
    else
      var c := if cfg.autoBlock.enabled && b.blockedUntil.Some? then ClearBlock(b) else b;
      var r := Refill(cfg, c, now);
      if r.tokens < 1.0 then
        if cfg.autoBlock.enabled then
          var v := Violate(cfg, r, now);
          (v, if HeldAt(cfg, v, now) then Decision(false, true, v.blockedUntil.value - now) else REFUSED)
        else (r, REFUSED)
      else
        var a := r.(tokens := r.tokens - 1.0);
        (if cfg.autoBlock.enabled && WindowOver(cfg, a, now)
         then a.(violationCount := 0, windowStart := None) else a,
         Decision(true, false, 0.0))
  }

  /** The bucket a call works on: the stored one, or a full one created on the spot. */
  function Entering(cfg: Config, s: Option<Bucket>, now: real): Bucket {
    s.GetOr(FreshBucket(cfg, now))
  }

  // ---------- the limiter itself ----------

  class BucketState {
    var tokens: real
    var last: real
    var violationCount: int
    var violationWindowStart: Option<real>
    var blockedUntil: Option<real>

    constructor (tokens: real, last: real)
      ensures Value() == Bucket(tokens, last, 0, None, None)
    {
      this.tokens := tokens;
      this.last := last;
      violationCount := 0;
      violationWindowStart := None;
      blockedUntil := None;
    }

    function Value(): Bucket
      reads this
    {
      Bucket(tokens, last, violationCount, violationWindowStart, blockedUntil)
    }
  }

  class Limiter {
    const cfg: Config
    var byIP: map<string, BucketState>

    ghost predicate Valid()
      reads this
    {
      && cfg.Valid()
      && forall a, b :: a in byIP && b in byIP && a != b ==> byIP[a] != byIP[b]
    }

    ghost function View(): map<string, Bucket>
      reads this, byIP.Values
    {
      map ip | ip in byIP :: byIP[ip].Value()
    }

    constructor (cfg: Config)
      requires cfg.Valid()
      ensures Valid() && this.cfg == cfg && View() == map[]
    {
      this.cfg := cfg;
      byIP := map[];
    }

    /** One request from clientIP: its decision and its bucket are those of Step, and no
        other client's bucket moves. */
    method Allow(clientIP: string, now: real) returns (decision: Decision)
      requires Valid()
      modifies this, byIP.Values
      ensures Valid() && fresh(byIP.Values - old(byIP.Values))
      ensures var s := if clientIP in old(View()) then Some(old(View())[clientIP]) else None;
              var r := Step(cfg, Entering(cfg, s, now), now);
              View() == old(View())[clientIP := r.0] && decision == r.1
    {
      var state;
      if clientIP in byIP {
        state := byIP[clientIP];
      } else {
        state := new BucketState(cfg.burst, now);
        byIP := byIP[clientIP := state];
      }
      decision := Decide(state, now);
    }

    method Decide(state: BucketState, now: real) returns (decision: Decision)
      requires cfg.Valid()
      modifies state
      ensures state.Value() == Step(cfg, old(state.Value()), now).0
      ensures decision == Step(cfg, old(state.Value()), now).1
    {
      if cfg.autoBlock.enabled && state.blockedUntil.Some? {
        if now < state.blockedUntil.value {
          return Decision(false, true, state.blockedUntil.value - now);
        }
        state.blockedUntil := None;
        state.violationCount := 0;
        state.violationWindowStart := None;
      }
      var elapsed := now - state.last;
      if elapsed < 0.0 {
        elapsed := 0.0;
      }
      state.last := now;
      state.tokens := MinReal(cfg.burst, state.tokens + Gain(cfg, elapsed));
      if state.tokens < 1.0 {
        if cfg.autoBlock.enabled {
          RegisterViolation(state, now);
          if state.blockedUntil.Some? && now < state.blockedUntil.value {
            return Decision(false, true, state.blockedUntil.value - now);
          }
        }
        return REFUSED;
      }
      state.tokens := state.tokens - 1.0;
      if cfg.autoBlock.enabled && state.violationWindowStart.Some?
         && now - state.violationWindowStart.value > cfg.autoBlock.window {
        state.violationCount := 0;
        state.violationWindowStart := None;
      }
      return Decision(true, false, 0.0);
    }

    method RegisterViolation(state: BucketState, now: real)
      modifies state
      ensures state.Value() == Violate(cfg, old(state.Value()), now)
    {
      if state.violationWindowStart.None? || now - state.violationWindowStart.value > cfg.autoBlock.window {
        state.violationWindowStart := Some(now);
        state.violationCount := 0;
      }
      state.violationCount := state.violationCount + 1;
      if state.violationCount < cfg.autoBlock.threshold {
        return;
      }
      state.blockedUntil := Some(now + cfg.autoBlock.duration);
      state.violationCount := 0;
      state.violationWindowStart := None;
    }
  }

  // ---------- whole runs of calls from one client ----------

  predicate Nondecreasing(times: seq<real>) {
    forall i, j :: 0 <= i <= j < |times| ==> times[i] <= times[j]
  }

  /** The client's bucket before call i of a run that starts on an empty limiter. */
  function Before(cfg: Config, times: seq<real>, i: nat): Option<Bucket>
    requires i <= |times|
  {
    if i == 0 then None
    else Some(Step(cfg, Entering(cfg, Before(cfg, times, i - 1), times[i - 1]), times[i - 1]).0)
  }

  function DecisionAt(cfg: Config, times: seq<real>, i: nat): Decision
    requires i < |times|
  {
    Step(cfg, Entering(cfg, Before(cfg, times, i), times[i]), times[i]).1
  }

  /** How many of the calls i, ..., j-1 are admitted. */
  function Admitted(cfg: Config, times: seq<real>, i: nat, j: nat): nat
    requires i <= j <= |times|
    decreases j
  {
    if i == j then 0
    else Admitted(cfg, times, i, j - 1) + if DecisionAt(cfg, times, j - 1).allowed then 1 else 0
  }

  /** Call i finds the client already blocked. */
  predicate Held(cfg: Config, times: seq<real>, i: nat)
    requires i < |times|
  {
    HeldAt(cfg, Entering(cfg, Before(cfg, times, i), times[i]), times[i])
  }

  /** Call i finds fewer than one token. */
  predicate Rejected(cfg: Config, times: seq<real>, i: nat)
    requires i < |times|
  {
    !Held(cfg, times, i) && !DecisionAt(cfg, times, i).allowed
  }

  function Rejections(cfg: Config, times: seq<real>, i: nat, j: nat): nat
    requires i <= j <= |times|
    decreases j
  {
    if i == j then 0
    else Rejections(cfg, times, i, j - 1) + if Rejected(cfg, times, j - 1) then 1 else 0
  }

  /** Call i turns a client that was not blocked into a blocked one. */
  predicate SetsBlock(cfg: Config, times: seq<real>, i: nat)
    requires i < |times|
  {
    !Held(cfg, times, i) && Before(cfg, times, i + 1).value.blockedUntil.Some? && cfg.autoBlock.enabled
  }

  // ---------- the admission bound ----------

  /** The tokens a call at time t would find. */
  function Available(cfg: Config, s: Option<Bucket>, t: real): real {
    if s.None? then cfg.burst
    else MinReal(cfg.burst, s.value.tokens + Gain(cfg, t - s.value.last))
  }

  lemma GainNonneg(cfg: Config, t: real, u: real)
    requires cfg.Valid() && t <= u
    ensures Gain(cfg, u - t) >= 0.0
  {
  }

  lemma GainAdds(cfg: Config, s: real, t: real, u: real)
    ensures Gain(cfg, u - s) == Gain(cfg, u - t) + Gain(cfg, t - s)
  {
  }

  predicate BucketInv(cfg: Config, s: Option<Bucket>, t: real) {
    s.Some? ==> 0.0 <= s.value.tokens <= cfg.burst && s.value.last <= t
  }

  lemma AvailableLater(cfg: Config, s: Option<Bucket>, t: real, u: real)
    requires cfg.Valid() && t <= u && BucketInv(cfg, s, t)
    ensures BucketInv(cfg, s, u)
    ensures 0.0 <= Available(cfg, s, u)
    ensures Available(cfg, s, u) == MinReal(cfg.burst, Available(cfg, s, t) + Gain(cfg, u - t))
  {
    GainNonneg(cfg, t, u);
    if s.Some? {
      var l := s.value.last;
      GainAdds(cfg, l, t, u);
      GainNonneg(cfg, l, u);
    }
  }

  /** A call takes exactly the token it admits with: nothing is created or lost. */
  lemma StepConserves(cfg: Config, s: Option<Bucket>, t: real)
    requires cfg.Valid() && BucketInv(cfg, s, t)
    ensures var r := Step(cfg, Entering(cfg, s, t), t);
            && BucketInv(cfg, Some(r.0), t)
            && Available(cfg, Some(r.0), t) == Available(cfg, s, t) - (if r.1.allowed then 1.0 else 0.0)
            && (!HeldAt(cfg, Entering(cfg, s, t), t) ==> (r.1.allowed <==> Available(cfg, s, t) >= 1.0))
  {
    var b := Entering(cfg, s, t);
    GainNonneg(cfg, b.last, t);
    assert Gain(cfg, t - t) == 0.0;
  }

  /** A clock that went back since the last call brings no tokens and takes none. */
  lemma ClockWentBack(cfg: Config, b: Bucket, now: real)
    requires cfg.Valid() && now <= b.last && !HeldAt(cfg, b, now)
    ensures var (b', d) := Step(cfg, b, now); var left := if b.tokens < cfg.burst then b.tokens else cfg.burst;
            && (d.allowed <==> left >= 1.0)
            && b'.last == now && b'.tokens == left - (if d.allowed then 1.0 else 0.0)
  {
    assert Gain(cfg, 0.0) == 0.0;
    hide Gain;
  }

  lemma {:induction false} TokensInRange(cfg: Config, times: seq<real>, i: nat, t: real)
    requires cfg.Valid() && Nondecreasing(times) && i <= |times|
    requires i > 0 ==> times[i - 1] <= t
    ensures BucketInv(cfg, Before(cfg, times, i), t)
    ensures 0.0 <= Available(cfg, Before(cfg, times, i), t) <= cfg.burst
  {
    if i > 0 {
      TokensInRange(cfg, times, i - 1, times[i - 1]);
      StepConserves(cfg, Before(cfg, times, i - 1), times[i - 1]);
      AvailableLater(cfg, Before(cfg, times, i), times[i - 1], t);
    }
  }

  /** What calls k..n-1 took plus what is left at t never exceeds one burst plus the refill since call k. */
  lemma {:induction false} SpentPlusLeft(cfg: Config, times: seq<real>, k: nat, n: nat, t: real)
    requires cfg.Valid() && Nondecreasing(times) && k <= n <= |times|
    requires n > 0 ==> times[n - 1] <= t
    requires k < |times| && times[k] <= t
    ensures Admitted(cfg, times, k, n) as real + Available(cfg, Before(cfg, times, n), t)
            <= cfg.burst + Gain(cfg, t - times[k])
    decreases n
  {
    TokensInRange(cfg, times, n, t);
    GainNonneg(cfg, times[k], t);
    if k < n {
      var u := times[n - 1];
      SpentPlusLeft(cfg, times, k, n - 1, u);
      TokensInRange(cfg, times, n - 1, u);
      StepConserves(cfg, Before(cfg, times, n - 1), u);
      AvailableLater(cfg, Before(cfg, times, n), u, t);
      GainAdds(cfg, times[k], u, t);
    }
  }

  lemma AdmissionsBelow(cfg: Config, times: seq<real>, i: nat, j: nat, s: real, t: real)
    requires cfg.Valid() && Nondecreasing(times) && i < j <= |times|
    requires s <= times[i] && times[j - 1] <= t
    ensures Admitted(cfg, times, i, j) as real <= cfg.burst + Gain(cfg, t - s)
  {
    SpentPlusLeft(cfg, times, i, j, t);
    TokensInRange(cfg, times, j, t);
    GainAdds(cfg, s, times[i], t);
    GainNonneg(cfg, s, times[i]);
  }

  /** In any run, blocks and unblocks included, the consecutive calls i..j-1 made between s and t
      get at most burst + rate * (t - s) admissions. */
  lemma AdmissionBound(cfg: Config, times: seq<real>, i: nat, j: nat, s: real, t: real)
    requires cfg.Valid() && Nondecreasing(times) && i < j <= |times|
    requires s <= times[i] && times[j - 1] <= t
    ensures Admitted(cfg, times, i, j) as real <= cfg.burst + (t - s) * cfg.ratePerSec
  {
    hide Admitted, Nondecreasing;
    AdmissionsBelow(cfg, times, i, j, s, t);
  }

  lemma LeftAfterCall(cfg: Config, times: seq<real>, n: nat)
    requires cfg.Valid() && Nondecreasing(times) && 0 < n < |times|
    requires Available(cfg, Before(cfg, times, n), times[n]) != cfg.burst
    ensures Available(cfg, Before(cfg, times, n), times[n]) ==
            Available(cfg, Before(cfg, times, n - 1), times[n - 1])
            - (if DecisionAt(cfg, times, n - 1).allowed then 1.0 else 0.0) + Gain(cfg, times[n] - times[n - 1])
  {
    var u := times[n - 1];
    TokensInRange(cfg, times, n - 1, u);
    StepConserves(cfg, Before(cfg, times, n - 1), u);
    AvailableLater(cfg, Before(cfg, times, n), u, times[n]);
    hide Gain, Step, Available;
  }

  /** The bound is tight: some earlier call k accounts for every missing token. */
  lemma {:induction false} LeftIsAttained(cfg: Config, times: seq<real>, n: nat) returns (k: nat)
    requires cfg.Valid() && Nondecreasing(times) && n < |times|
    ensures k <= n
    ensures Admitted(cfg, times, k, n) as real + Available(cfg, Before(cfg, times, n), times[n])
            == cfg.burst + Gain(cfg, times[n] - times[k])
    decreases n
  {
    assert Gain(cfg, times[n] - times[n]) == 0.0;
    assert n == 0 ==> Available(cfg, Before(cfg, times, n), times[n]) == cfg.burst;
    hide Gain, Available, Before, DecisionAt;
    if Available(cfg, Before(cfg, times, n), times[n]) == cfg.burst {
      k := n;
    } else {
      k := LeftIsAttained(cfg, times, n - 1);
      LeftAfterCall(cfg, times, n);
      GainAdds(cfg, times[k], times[n - 1], times[n]);
    }
  }

  /** Admitting call n would break the bound for the stretch that begins at call k. */
  predicate Overruns(cfg: Config, times: seq<real>, k: nat, n: nat)
    requires k <= n < |times|
  {
    Admitted(cfg, times, k, n) as real + 1.0 > cfg.burst + (times[n] - times[k]) * cfg.ratePerSec
  }

  lemma OverrunsIs(cfg: Config, times: seq<real>, k: nat, n: nat)
    requires k <= n < |times|
    ensures Overruns(cfg, times, k, n) <==>
            Admitted(cfg, times, k, n) as real + 1.0 > cfg.burst + Gain(cfg, times[n] - times[k])
  {
    hide Admitted;
  }

  /** The limiter refuses no more than it must: a client that is not blocked is refused exactly
      when admitting it would break the bound for some stretch ending at this call. */
  lemma RefusedExactlyWhenOverrun(cfg: Config, times: seq<real>, n: nat)
    requires cfg.Valid() && Nondecreasing(times) && n < |times|
    ensures Rejected(cfg, times, n)
            <==> !Held(cfg, times, n) && exists k :: 0 <= k <= n && Overruns(cfg, times, k, n)
  {
    var t := times[n];
    TokensInRange(cfg, times, n, t);
    StepConserves(cfg, Before(cfg, times, n), t);
    var m := LeftIsAttained(cfg, times, n);
    OverrunsIs(cfg, times, m, n);
    hide Gain, Overruns, Available, Before, Step, Admitted;
    forall k | 0 <= k <= n && Overruns(cfg, times, k, n)
      ensures Available(cfg, Before(cfg, times, n), t) < 1.0
    {
      OverrunsIs(cfg, times, k, n);
      SpentPlusLeft(cfg, times, k, n, t);
    }
  }

  // ---------- automatic blocking ----------

  /** What the stored violation count means: the rejections since the call k that opened the window. */
  ghost predicate WindowMeaning(cfg: Config, times: seq<real>, i: nat)
    requires i <= |times|
  {
    var s := Before(cfg, times, i);
    s.Some? ==>
      && 0 <= s.value.violationCount < cfg.autoBlock.threshold
      && (s.value.blockedUntil.Some? ==> s.value.windowStart.None?)
      && (s.value.windowStart.None? ==> s.value.violationCount == 0)
      && (s.value.windowStart.Some? ==> exists k :: OpensWindow(cfg, times, k, i))
  }

  ghost predicate OpensWindow(cfg: Config, times: seq<real>, k: nat, i: nat)
    requires i <= |times|
  {
    var s := Before(cfg, times, i);
    && s.Some? && k < i
    && s.value.windowStart == Some(times[k])
    && Rejections(cfg, times, k, i) == s.value.violationCount
  }

  /** The stored count stays below the threshold between calls and counts the window's rejections. */
  lemma {:induction false} CountIsWindowRejections(cfg: Config, times: seq<real>, i: nat)
    requires cfg.Valid() && cfg.autoBlock.enabled && i <= |times|
    ensures WindowMeaning(cfg, times, i)
  {
    if i > 0 {
      var n := i - 1;
      CountIsWindowRejections(cfg, times, n);
      var s, s' := Before(cfg, times, n), Before(cfg, times, i);
      if s'.value.windowStart.Some? {
        if s.Some? && s.value.windowStart == s'.value.windowStart {
          var k :| OpensWindow(cfg, times, k, n);
          WindowKept(cfg, times, k, n);
        } else {
          WindowOpened(cfg, times, n);
        }
      }
    }
  }

  lemma WindowKept(cfg: Config, times: seq<real>, k: nat, n: nat)
    requires cfg.Valid() && cfg.autoBlock.enabled && n < |times|
    requires WindowMeaning(cfg, times, n) && OpensWindow(cfg, times, k, n)
    requires Before(cfg, times, n + 1).value.windowStart == Before(cfg, times, n).value.windowStart
    ensures OpensWindow(cfg, times, k, n + 1)
  {
    assert Rejections(cfg, times, k, n + 1) == Rejections(cfg, times, k, n) + if Rejected(cfg, times, n) then 1 else 0;
  }

  lemma WindowOpened(cfg: Config, times: seq<real>, n: nat)
    requires cfg.Valid() && cfg.autoBlock.enabled && n < |times| && WindowMeaning(cfg, times, n)
    requires var s, s' := Before(cfg, times, n), Before(cfg, times, n + 1);
             s'.value.windowStart.Some? && !(s.Some? && s.value.windowStart == s'.value.windowStart)
    ensures OpensWindow(cfg, times, n, n + 1)
  {
    assert Rejections(cfg, times, n, n) == 0;
  }

  /** A block is set only by the threshold-th rejection inside one violation window. */
  lemma BlockNeedsViolations(cfg: Config, times: seq<real>, i: nat) returns (k: nat)
    requires cfg.Valid() && i < |times| && SetsBlock(cfg, times, i)
    ensures k <= i && times[i] - times[k] <= cfg.autoBlock.window
    ensures Rejections(cfg, times, k, i + 1) == cfg.autoBlock.threshold
    ensures Rejected(cfg, times, i)
  {
    CountIsWindowRejections(cfg, times, i);
    var s := Before(cfg, times, i);
    assert Rejections(cfg, times, i, i) == 0;
    k := i;
    if cfg.autoBlock.threshold != 1 {
      k :| OpensWindow(cfg, times, k, i);
    }
  }

  lemma {:induction false} BlockIsKept(cfg: Config, times: seq<real>, i: nat, j: nat)
    requires cfg.Valid() && Nondecreasing(times) && i < j < |times| && SetsBlock(cfg, times, i)
    requires times[j] < times[i] + cfg.autoBlock.duration
    ensures Before(cfg, times, j) == Before(cfg, times, i + 1)
    ensures Before(cfg, times, j).value.blockedUntil == Some(times[i] + cfg.autoBlock.duration)
  {
    if j > i + 1 {
      BlockIsKept(cfg, times, i, j - 1);
    }
  }

  /** From the block until its duration has passed nothing is admitted, and the caller is told
      exactly how long is left. */
  lemma {:induction false} BlockedUntilItEnds(cfg: Config, times: seq<real>, i: nat, j: nat)
    requires cfg.Valid() && Nondecreasing(times) && i < j < |times| && SetsBlock(cfg, times, i)
    requires times[j] < times[i] + cfg.autoBlock.duration
    ensures DecisionAt(cfg, times, j) == Decision(false, true, times[i] + cfg.autoBlock.duration - times[j])
    ensures Admitted(cfg, times, i, j + 1) == 0
  {
    BlockIsKept(cfg, times, i, j);
    assert Admitted(cfg, times, i, i + 1) == 0;
    if j > i + 1 {
      BlockedUntilItEnds(cfg, times, i, j - 1);
    }
  }

  // ---------- blocks, read off decisions and times ----------

  /** The call that opened the violation window, and when the last block ends. */
  datatype Watch = Watch(opening: Option<nat>, blockEnd: Option<real>)

  /** What someone who sees only when a client calls and which calls are admitted knows before call i:
      admissions, and calls during a block, change nothing; a refusal opens a window unless one is open,
      and the one that fills its window sets a block. */
  ghost function Watched(a: AutoBlock, times: seq<real>, admitted: seq<bool>, i: nat): (w: Watch)
    requires i <= |times| == |admitted|
    ensures w.opening.Some? ==> w.opening.value < i
    decreases i, 0
  {
    if i == 0 then Watch(None, None)
    else
      var w := Watched(a, times, admitted, i - 1);
      if !Refused(a, times, admitted, i - 1) then w
      else if FillsWindow(a, times, admitted, i - 1) then Watch(None, Some(times[i - 1] + a.duration))
      else w.(opening := Some(OpeningOf(a, times, admitted, i - 1)))
  }

  ghost predicate InBlock(a: AutoBlock, times: seq<real>, admitted: seq<bool>, i: nat)
    requires i < |times| == |admitted|
    decreases i, 1
  {
    var w := Watched(a, times, admitted, i);
    w.blockEnd.Some? && times[i] < w.blockEnd.value
  }

  ghost predicate Refused(a: AutoBlock, times: seq<real>, admitted: seq<bool>, i: nat)
    requires i < |times| == |admitted|
    decreases i, 2
  {
    !admitted[i] && !InBlock(a, times, admitted, i)
  }

  /** The opening of the window a refusal falls in: its own if no window is open, or the open one is over. */
  ghost function OpeningOf(a: AutoBlock, times: seq<real>, admitted: seq<bool>, i: nat): (k: nat)
    requires i < |times| == |admitted|
    ensures k <= i
    decreases i, 1
  {
    var o := Watched(a, times, admitted, i).opening;
    if o.None? || times[i] - times[o.value] > a.window then i else o.value
  }

  /** How many of the calls k, ..., i-1 are refused. */
  ghost function Refusals(a: AutoBlock, times: seq<real>, admitted: seq<bool>, k: nat, i: nat): nat
    requires k <= i <= |times| == |admitted|
    decreases i, 0
  {
    if k == i then 0
    else Refusals(a, times, admitted, k, i - 1) + if Refused(a, times, admitted, i - 1) then 1 else 0
  }

  /** Call i is the threshold-th refusal since the opening of its window. */
  ghost predicate FillsWindow(a: AutoBlock, times: seq<real>, admitted: seq<bool>, i: nat)
    requires i < |times| == |admitted|
    decreases i, 3
  {
    && a.enabled && Refused(a, times, admitted, i)
    && Refusals(a, times, admitted, OpeningOf(a, times, admitted, i), i) + 1 == a.threshold
  }

  function Admissions(cfg: Config, times: seq<real>): (admitted: seq<bool>)
    ensures |admitted| == |times|
  {
    seq(|times|, i requires 0 <= i < |times| => DecisionAt(cfg, times, i).allowed)
  }

  ghost predicate WatchFits(cfg: Config, times: seq<real>, i: nat)
    requires i <= |times|
  {
    var s, w := Before(cfg, times, i), Watched(cfg.autoBlock, times, Admissions(cfg, times), i);
    if s.None? then w == Watch(None, None)
    else
      && i > 0 && BlockFits(s.value, w, times[i - 1])
      && (cfg.autoBlock.enabled ==> WindowFits(cfg, times, s.value, w, i))
  }

  /** A block the bucket no longer stores is over. */
  ghost predicate BlockFits(b: Bucket, w: Watch, last: real) {
    if b.blockedUntil.Some? then w.blockEnd == b.blockedUntil
    else w.blockEnd.Some? ==> w.blockEnd.value <= last
  }

  /** So is a window it no longer stores. */
  ghost predicate WindowFits(cfg: Config, times: seq<real>, b: Bucket, w: Watch, i: nat)
    requires 0 < i <= |times| && (w.opening.Some? ==> w.opening.value < i)
  {
    if b.windowStart.Some? then
      && w.opening.Some? && b.windowStart == Some(times[w.opening.value])
      && b.violationCount == Refusals(cfg.autoBlock, times, Admissions(cfg, times), w.opening.value, i)
    else
      b.violationCount == 0 && (w.opening.Some? ==> times[i - 1] - times[w.opening.value] > cfg.autoBlock.window)
  }

  lemma HeldIsInBlock(cfg: Config, times: seq<real>, i: nat)
    requires cfg.Valid() && Nondecreasing(times) && i < |times| && WatchFits(cfg, times, i)
    requires !cfg.autoBlock.enabled ==> Watched(cfg.autoBlock, times, Admissions(cfg, times), i).blockEnd == None
    ensures Held(cfg, times, i) <==> InBlock(cfg.autoBlock, times, Admissions(cfg, times), i)
    ensures Rejected(cfg, times, i) <==> Refused(cfg.autoBlock, times, Admissions(cfg, times), i)
  {
    hide Step;
  }

  lemma {:induction false} NeverBlocksWhenDisabled(a: AutoBlock, times: seq<real>, admitted: seq<bool>, i: nat)
    requires !a.enabled && i <= |times| == |admitted|
    ensures Watched(a, times, admitted, i).blockEnd == None
  {
    if i > 0 {
      NeverBlocksWhenDisabled(a, times, admitted, i - 1);
    }
  }

  lemma FillsExactly(cfg: Config, times: seq<real>, i: nat)
    requires cfg.Valid() && Nondecreasing(times) && i < |times| && WatchFits(cfg, times, i)
    requires cfg.autoBlock.enabled && WindowMeaning(cfg, times, i)
    ensures SetsBlock(cfg, times, i) <==> FillsWindow(cfg.autoBlock, times, Admissions(cfg, times), i)
  {
    var a, admitted := cfg.autoBlock, Admissions(cfg, times);
    HeldIsInBlock(cfg, times, i);
    assert Refusals(a, times, admitted, i, i) == 0;
    assert i > 0 ==> times[i - 1] <= times[i];
    hide Watched, InBlock, Refused, Refusals, Refill;
  }

  lemma BlockAfter(cfg: Config, b: Bucket, t: real)
    requires cfg.autoBlock.enabled
    ensures var b' := Step(cfg, b, t).0;
            if HeldAt(cfg, b, t) then b' == b
            else b'.blockedUntil == None || b'.blockedUntil == Some(t + cfg.autoBlock.duration)
  {
  }

  lemma NextBucket(cfg: Config, times: seq<real>, i: nat)
    requires i < |times|
    ensures Before(cfg, times, i + 1) == Some(Step(cfg, Entering(cfg, Before(cfg, times, i), times[i]), times[i]).0)
  {
  }

  lemma NextWatch(a: AutoBlock, times: seq<real>, admitted: seq<bool>, i: nat)
    requires i < |times| == |admitted|
    ensures FillsWindow(a, times, admitted, i) ==> Refused(a, times, admitted, i)
    ensures Watched(a, times, admitted, i + 1) ==
            if !Refused(a, times, admitted, i) then Watched(a, times, admitted, i)
            else if FillsWindow(a, times, admitted, i) then Watch(None, Some(times[i] + a.duration))
            else Watched(a, times, admitted, i).(opening := Some(OpeningOf(a, times, admitted, i)))
  {
  }

  lemma BlockStep(cfg: Config, times: seq<real>, i: nat)
    requires cfg.Valid() && Nondecreasing(times) && i < |times| && WatchFits(cfg, times, i)
    requires cfg.autoBlock.enabled && WindowMeaning(cfg, times, i)
    ensures BlockFits(Before(cfg, times, i + 1).value, Watched(cfg.autoBlock, times, Admissions(cfg, times), i + 1), times[i])
  {
    hide Before, Step, Watched, Refused, FillsWindow, OpeningOf, Refusals, WindowFits, WindowMeaning, Admissions;
    HeldIsInBlock(cfg, times, i);
    FillsExactly(cfg, times, i);
    BlockAfter(cfg, Entering(cfg, Before(cfg, times, i), times[i]), times[i]);
    NextBucket(cfg, times, i);
    NextWatch(cfg.autoBlock, times, Admissions(cfg, times), i);
    assert i > 0 ==> times[i - 1] <= times[i];
  }

  lemma WindowStep(cfg: Config, times: seq<real>, i: nat)
    requires cfg.Valid() && Nondecreasing(times) && i < |times| && WatchFits(cfg, times, i)
    requires cfg.autoBlock.enabled && WindowMeaning(cfg, times, i)
    ensures WindowFits(cfg, times, Before(cfg, times, i + 1).value, Watched(cfg.autoBlock, times, Admissions(cfg, times), i + 1), i + 1)
  {
    var a, admitted := cfg.autoBlock, Admissions(cfg, times);
    HeldIsInBlock(cfg, times, i);
    FillsExactly(cfg, times, i);
    assert i > 0 ==> times[i - 1] <= times[i];
    assert Refusals(a, times, admitted, i, i) == 0;
    hide FillsWindow, InBlock, Refused, Refill;
  }

  lemma WatchStep(cfg: Config, times: seq<real>, i: nat)
    requires cfg.Valid() && Nondecreasing(times) && i < |times| && WatchFits(cfg, times, i)
    requires cfg.autoBlock.enabled ==> WindowMeaning(cfg, times, i)
    ensures WatchFits(cfg, times, i + 1)
  {
    if cfg.autoBlock.enabled {
      BlockStep(cfg, times, i);
      WindowStep(cfg, times, i);
    } else {
      NeverBlocksWhenDisabled(cfg.autoBlock, times, Admissions(cfg, times), i + 1);
    }
    hide BlockFits, WindowFits, Step, Watched;
  }

  lemma {:induction false} WatchIsRight(cfg: Config, times: seq<real>, i: nat)
    requires cfg.Valid() && Nondecreasing(times) && i <= |times|
    ensures WatchFits(cfg, times, i)
  {
    if i > 0 {
      WatchIsRight(cfg, times, i - 1);
      if cfg.autoBlock.enabled {
        CountIsWindowRejections(cfg, times, i - 1);
      }
      WatchStep(cfg, times, i - 1);
    }
  }

  /** A call answers that the client is blocked exactly if it comes during a block or sets one, and it sets
      one exactly if it is the threshold-th refusal of its window; the time to wait is what is left. */
  lemma {:induction false} BlocksExactly(cfg: Config, times: seq<real>, i: nat)
    requires cfg.Valid() && Nondecreasing(times) && i < |times|
    ensures var a, admitted, d := cfg.autoBlock, Admissions(cfg, times), DecisionAt(cfg, times, i);
            && (SetsBlock(cfg, times, i) <==> FillsWindow(a, times, admitted, i))
            && (d.blocked <==> InBlock(a, times, admitted, i) || FillsWindow(a, times, admitted, i))
            && (d.allowed ==> !d.blocked)
            && d.retryAfter ==
               if InBlock(a, times, admitted, i) then Watched(a, times, admitted, i).blockEnd.value - times[i]
               else if FillsWindow(a, times, admitted, i) then a.duration
               else 0.0
  {
    var a, admitted := cfg.autoBlock, Admissions(cfg, times);
    WatchIsRight(cfg, times, i);
    if a.enabled {
      CountIsWindowRejections(cfg, times, i);
    } else {
      NeverBlocksWhenDisabled(a, times, admitted, i);
    }
    HeldIsInBlock(cfg, times, i);
  }

  // ---------- many clients on one limiter ----------

  datatype Call = Call(ip: string, at: real)

  function Lookup(m: map<string, Bucket>, ip: string): Option<Bucket> {
    if ip in m then Some(m[ip]) else None
  }

  /** The limiter's buckets before call n of a run that interleaves any clients. */
  function Buckets(cfg: Config, calls: seq<Call>, n: nat): map<string, Bucket>
    requires n <= |calls|
  {
    if n == 0 then map[]
    else
      var c, m := calls[n - 1], Buckets(cfg, calls, n - 1);
      m[c.ip := Step(cfg, Entering(cfg, Lookup(m, c.ip), c.at), c.at).0]
  }

  function TimesOf(calls: seq<Call>, ip: string, n: nat): seq<real>
    requires n <= |calls|
  {
    if n == 0 then []
    else TimesOf(calls, ip, n - 1) + if calls[n - 1].ip == ip then [calls[n - 1].at] else []
  }

  lemma {:induction false} BeforeOfPrefix(cfg: Config, times: seq<real>, more: seq<real>, i: nat)
    requires i <= |times|
    ensures Before(cfg, times + more, i) == Before(cfg, times, i)
  {
    if i > 0 {
      BeforeOfPrefix(cfg, times, more, i - 1);
    }
  }

  /** However calls are interleaved, each client sees the limiter it would see alone, so every
      result above holds for its own calls. */
  lemma {:induction false} ClientsAreIndependent(cfg: Config, calls: seq<Call>, ip: string, n: nat)
    requires n <= |calls|
    ensures var times := TimesOf(calls, ip, n);
            Lookup(Buckets(cfg, calls, n), ip) == Before(cfg, times, |times|)
    ensures n < |calls| && calls[n].ip == ip ==>
              var times := TimesOf(calls, ip, n);
              Step(cfg, Entering(cfg, Lookup(Buckets(cfg, calls, n), ip), calls[n].at), calls[n].at).1
              == DecisionAt(cfg, TimesOf(calls, ip, n + 1), |times|)
  {
    var times := TimesOf(calls, ip, n);
    if n > 0 {
      ClientsAreIndependent(cfg, calls, ip, n - 1);
      var earlier := TimesOf(calls, ip, n - 1);
      if calls[n - 1].ip == ip {
        BeforeOfPrefix(cfg, earlier, [calls[n - 1].at], |earlier|);
      } else {
        assert times == earlier;
      }
    }
    if n < |calls| && calls[n].ip == ip {
      BeforeOfPrefix(cfg, times, [calls[n].at], |times|);
    }
  }
}
