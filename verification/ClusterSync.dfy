/** The follower's sync loop: its runtime status, fail-close, backoff, and one run through all stages.
    Times are nanoseconds; a Go zero time is None. */
module ClusterSync {
  import opened Common
  import opened Text
  import Mirror = CertificateMirror
  import Certs = CertificateApply

  const SECOND := 1_000_000_000
  const MINUTE := 60 * SECOND

  // ---------- runtime status ----------

  /** `staleAfter` is the configured duration, None if it cannot be parsed. */
  datatype Config = Config(failClose: bool, failures: int, staleAfter: Option<int>)

  datatype Status = Status(
    follower: bool,
    config: Config,
    lastAttemptAt: Option<int>,
    lastFetchAt: Option<int>,
    lastApplyAt: Option<int>,
    lastSuccessAt: Option<int>,
    lastFailureAt: Option<int>,
    lastFailedStage: string,
    lastError: string,
    consecutiveFailures: int)

  function Threshold(c: Config): int {
    if c.failures <= 0 then 10 else c.failures
  }

  function StaleAfter(c: Config): int {
    if c.staleAfter.Some? && c.staleAfter.value > 0 then c.staleAfter.value else 5 * MINUTE
  }

  predicate ShouldFailClose(s: Status, now: int) {
    if !s.follower || !s.config.failClose then false
    else if s.consecutiveFailures >= Threshold(s.config) then true
    else if s.lastFailureAt.None? then false
    else if s.lastSuccessAt.None? then s.lastAttemptAt.Some? && now - s.lastAttemptAt.value > StaleAfter(s.config)
    else now - s.lastSuccessAt.value > StaleAfter(s.config)
  }

  class RuntimeState {
    var status: Status

    constructor (follower: bool, config: Config)
      ensures status == Status(follower, config, None, None, None, None, None, "", "", 0)
    {
      status := Status(follower, config, None, None, None, None, None, "", "", 0);
    }

    method StartAttempt(now: int)
      modifies this
      ensures status == Happens(old(status), AttemptStarts(now)) == old(status).(lastAttemptAt := Some(now))
    {
      status := status.(lastAttemptAt := Some(now));
    }

    method MarkFetchSuccess(now: int)
      modifies this
      ensures status == Happens(old(status), FetchSucceeds(now)) == old(status).(lastFetchAt := Some(now))
    {
      status := status.(lastFetchAt := Some(now));
    }

    method MarkApplySuccess(now: int)
      modifies this
      ensures status == Happens(old(status), ApplySucceeds(now)) == old(status).(lastApplyAt := Some(now))
    {
      status := status.(lastApplyAt := Some(now));
    }

    method MarkSuccess(now: int)
      modifies this
      ensures status == Happens(old(status), RunSucceeds(now))
      ensures status.lastSuccessAt == Some(now) && status.consecutiveFailures == 0
      ensures status.lastError == "" && status.lastFailedStage == "" && status.lastFailureAt == old(status.lastFailureAt)
    {
      status := status.(
        lastSuccessAt := Some(now), lastError := "", lastFailedStage := "", consecutiveFailures := 0);
    }

    method MarkFailure(stage: string, error: string, now: int)
      modifies this
      ensures status == Happens(old(status), RunFails(stage, error, now))
      ensures status.lastFailedStage == (if Trim(stage) == "" then "sync" else Trim(stage)) && status.lastError == Trim(error)
      ensures status.lastFailureAt == Some(now) && status.consecutiveFailures == old(status.consecutiveFailures) + 1
    {
      var message := Trim(error);
      var name := Trim(stage);
      if name == "" {
        name := "sync";
      }
      status := status.(
        lastFailureAt := Some(now), lastFailedStage := name, lastError := message,
        consecutiveFailures := status.consecutiveFailures + 1);
    }

    method UpdateConfig(config: Config)
      modifies this
      ensures status == Happens(old(status), ConfigChanges(config)) == old(status).(config := config)
    {
      status := status.(config := config);
    }

    method SetMode(follower: bool)
      modifies this
      ensures status == Happens(old(status), ModeChanges(follower)) == old(status).(follower := follower)
    {
      status := status.(follower := follower);
    }
  }

  // ---------- fail-close over time ----------

  datatype Event =
    | AttemptStarts(now: int)
    | FetchSucceeds(now: int)
    | ApplySucceeds(now: int)
    | RunSucceeds(now: int)
    | RunFails(stage: string, error: string, now: int)
    | ConfigChanges(config: Config)
    | ModeChanges(follower: bool)

  function StageName(stage: string): string {
    if Trim(stage) == "" then "sync" else Trim(stage)
  }

  function Happens(s: Status, e: Event): Status {
    match e
    case AttemptStarts(now) => s.(lastAttemptAt := Some(now))
    case FetchSucceeds(now) => s.(lastFetchAt := Some(now))
    case ApplySucceeds(now) => s.(lastApplyAt := Some(now))
    case RunSucceeds(now) =>
      s.(lastSuccessAt := Some(now), lastError := "", lastFailedStage := "", consecutiveFailures := 0)
    case RunFails(stage, error, now) =>
      s.(lastFailureAt := Some(now), lastFailedStage := StageName(stage), lastError := Trim(error),
         consecutiveFailures := s.consecutiveFailures + 1)
    case ConfigChanges(config) => s.(config := config)
    case ModeChanges(follower) => s.(follower := follower)
  }

  /** The events after which fail-close is meant to be judged anew; a configuration or a mode that is set
      again unchanged is none. */
  predicate Clears(s: Status, e: Event) {
    || e.RunSucceeds?
    || (e.ConfigChanges? && e.config != s.config)
    || (e.ModeChanges? && e.follower != s.follower)
  }

  /** A new attempt of a follower that has never succeeded, with fewer failures than the threshold, at
      a time from which the stale period is not over at t. */
  predicate RestartsPatience(s: Status, e: Event, t: int) {
    e.AttemptStarts? && s.lastSuccessAt.None? && s.consecutiveFailures < Threshold(s.config)
    && t - e.now <= StaleAfter(s.config)
  }

  /** Active fail-close outlives the mere passing of time, and every event that is not a success or a
      change of configuration, with exactly one exception. */
  lemma FailCloseStaysExactly(s: Status, e: Event, now: int, later: int)
    requires ShouldFailClose(s, now) && now <= later && !Clears(s, e)
    ensures ShouldFailClose(s, later)
    ensures ShouldFailClose(Happens(s, e), later) <==> !RestartsPatience(s, e, later)
  {
  }

  function HappenAll(s: Status, events: seq<Event>): Status {
    if events == [] then s else Happens(HappenAll(s, events[..|events| - 1]), events[|events| - 1])
  }

  /** Over whole runs: once active, and the follower had succeeded before or failed often enough, it
      stays active until a success or a change of configuration. */
  lemma {:induction false} FailCloseStays(s: Status, events: seq<Event>, now: int, later: int)
    requires ShouldFailClose(s, now) && now <= later
    requires s.lastSuccessAt.Some? || s.consecutiveFailures >= Threshold(s.config)
    requires forall i :: 0 <= i < |events| ==> !Clears(s, events[i])
    ensures var s' := HappenAll(s, events);
            && ShouldFailClose(s', later)
            && s'.follower == s.follower && s'.config == s.config && s'.lastSuccessAt == s.lastSuccessAt
            && s'.consecutiveFailures >= s.consecutiveFailures
  {
    if events != [] {
      var n := |events| - 1;
      FailCloseStays(s, events[..n], now, later);
      FailCloseStaysExactly(HappenAll(s, events[..n]), events[n], later, later);
    }
  }

  function FailuresIn(events: seq<Event>): nat {
    if events == [] then 0 else FailuresIn(events[..|events| - 1]) + if events[|events| - 1].RunFails? then 1 else 0
  }

  function LastAttempt(s: Status, events: seq<Event>): Option<int> {
    if events == [] then s.lastAttemptAt
    else if events[|events| - 1].AttemptStarts? then Some(events[|events| - 1].now)
    else LastAttempt(s, events[..|events| - 1])
  }

  lemma {:induction false} AfterRun(s: Status, events: seq<Event>)
    requires forall i :: 0 <= i < |events| ==> !Clears(s, events[i])
    ensures var s' := HappenAll(s, events);
            && s'.follower == s.follower && s'.config == s.config && s'.lastSuccessAt == s.lastSuccessAt
            && s'.consecutiveFailures == s.consecutiveFailures + FailuresIn(events)
            && s'.lastAttemptAt == LastAttempt(s, events)
            && (s.lastFailureAt.Some? ==> s'.lastFailureAt.Some?)
  {
    if events != [] {
      AfterRun(s, events[..|events| - 1]);
    }
  }

  /** The exact rule over whole runs without a success or a change of configuration: an active fail-close
      is active later exactly if the follower had succeeded before, or has failed often enough by then, or
      its last attempt is older than the stale period. */
  lemma {:induction false} FailCloseOverRunsExactly(s: Status, events: seq<Event>, now: int, later: int)
    requires ShouldFailClose(s, now) && now <= later
    requires forall i :: 0 <= i < |events| ==> !Clears(s, events[i])
    ensures ShouldFailClose(HappenAll(s, events), later)
            <==> || s.lastSuccessAt.Some?
                 || s.consecutiveFailures + FailuresIn(events) >= Threshold(s.config)
                 || (LastAttempt(s, events).Some? && later - LastAttempt(s, events).value > StaleAfter(s.config))
  {
    AfterRun(s, events);
  }

  /** A follower that has never reached its controller loses an active fail-close merely by trying again. */
  lemma NeverSucceededFailCloseFlaps()
    ensures var s := Status(true, Config(true, 10, Some(30 * SECOND)), Some(0), None, None, None, Some(1), "fetch_nodes", "", 1);
            var now := 31 * SECOND;
            ShouldFailClose(s, now) && !ShouldFailClose(Happens(s, AttemptStarts(now)), now)
  {
  }

  // ---------- backoff ----------

  const MAX_MULTIPLIER := 16
  const MAX_DELAY := 60 * SECOND
  const MIN_DELAY := SECOND / 2

  /** A conversion to an integer drops the fraction, towards zero. */
  function Truncate(x: real): int {
    if x >= 0.0 then x.Floor else -((-x).Floor)
  }

  function BaseOf(baseInterval: int): int {
    if baseInterval <= 0 then 3 * SECOND else baseInterval
  }

  /** The delay before jitter: the base interval, doubled for every further failure up to 16 times,
      capped at a minute once a run has failed. */
  function Backoff(baseInterval: int, failures: nat): int {
    if failures == 0 then BaseOf(baseInterval)
    else Min(MAX_DELAY, BaseOf(baseInterval) * Min(MAX_MULTIPLIER, Pow2(failures - 1)))
  }

  function Jitter(delay: int, unit: real): int {
    var u := if 0.0 <= unit < 1.0 then unit else 0.5;
    if delay / 5 > 0 then Truncate(Share(u, delay / 5)) else 0
  }

  /** A unit of 0 takes the whole range off, one of 1 would put it on. */
  function Share(unit: real, range: int): real {
    (unit * 2.0 - 1.0) * range as real
  }

  method BackoffMultiplier(consecutiveFailures: nat) returns (multiplier: int)
    requires consecutiveFailures > 0
    ensures multiplier == Min(MAX_MULTIPLIER, Pow2(consecutiveFailures - 1))
  {
    multiplier := 1;
    var i := 1;
    while i < consecutiveFailures && multiplier < MAX_MULTIPLIER
      invariant 1 <= i <= consecutiveFailures && i <= 5
      invariant multiplier == Pow2(i - 1) <= MAX_MULTIPLIER
    {
      assert Pow2(4) == 16;
      multiplier := multiplier * 2;
      i := i + 1;
    }
    Pow2Grows(i - 1, consecutiveFailures - 1);
    if multiplier > MAX_MULTIPLIER {
      multiplier := MAX_MULTIPLIER;
    }
  }

  method NextClusterSyncDelay(baseInterval: int, consecutiveFailures: nat, jitterUnit: real) returns (delay: int)
    ensures var b := Backoff(baseInterval, consecutiveFailures); delay == Max(500_000_000, b + Jitter(b, jitterUnit))
  {
    hide Share, Truncate, Pow2;
    var base := baseInterval;
    if base <= 0 {
      base := 3 * SECOND;
    }
    delay := base;
    if consecutiveFailures > 0 {
      var multiplier := BackoffMultiplier(consecutiveFailures);
      delay := base * multiplier;
      if delay > MAX_DELAY {
        delay := MAX_DELAY;
      }
    }
    var unit := jitterUnit;
    if !(0.0 <= unit < 1.0) {
      unit := 0.5;
    }
    var jitterRange := delay / 5;
    if jitterRange > 0 {
      delay := delay + Truncate(Share(unit, jitterRange));
    }
    if delay < MIN_DELAY {
      delay := MIN_DELAY;
    }
  }

  lemma TruncateBounded(x: real, n: nat)
    requires -(n as real) <= x <= n as real
    ensures -(n as int) <= Truncate(x) <= n
  {
  }

  lemma ShareBounded(unit: real, range: nat)
    requires 0.0 <= unit < 1.0
    ensures -(range as real) <= Share(unit, range) <= range as real
  {
    var x := range as real;
    ProductNonneg(unit, x);
    ProductNonneg(1.0 - unit, x);
    assert (1.0 - unit) * x == x - unit * x;
    assert Share(unit, range) == 2.0 * (unit * x) - x;
  }

  lemma ProductNonneg(a: real, b: real)
    requires a >= 0.0 && b >= 0.0
    ensures a * b >= 0.0
  {
  }

  lemma JitterBounded(delay: int, unit: real)
    requires delay >= 0
    ensures -(delay / 5) <= Jitter(delay, unit) <= delay / 5
  {
    hide Share;
    var u := if 0.0 <= unit < 1.0 then unit else 0.5;
    ShareBounded(u, delay / 5);
    TruncateBounded(Share(u, delay / 5), delay / 5);
  }

  /** After a failed run the next one comes between half a second and 72 seconds later. */
  lemma FailingDelayBounded(baseInterval: int, failures: nat, unit: real)
    requires failures > 0
    ensures var b := Backoff(baseInterval, failures);
            500_000_000 <= Max(500_000_000, b + Jitter(b, unit)) <= 72_000_000_000
  {
    var b := Backoff(baseInterval, failures);
    Pow2Grows(0, failures - 1);
    var m := Min(MAX_MULTIPLIER, Pow2(failures - 1));
    assert BaseOf(baseInterval) * m >= 0;
    JitterBounded(b, unit);
  }

  /** The wait before jitter: the base interval, or three seconds, as long as nothing fails; after a failure at most
      a minute, and doubled with each of the next four. */
  lemma BackoffDoubles(baseInterval: int, failures: nat)
    ensures Backoff(baseInterval, 0) == if baseInterval <= 0 then 3_000_000_000 else baseInterval
    ensures Backoff(baseInterval, 1) == Min(60_000_000_000, Backoff(baseInterval, 0))
    ensures 1 <= failures < 5 ==> Backoff(baseInterval, failures + 1) == Min(60_000_000_000, 2 * Backoff(baseInterval, failures))
    ensures 5 <= failures ==> Backoff(baseInterval, failures + 1) == Backoff(baseInterval, failures)
  {
    var base := BaseOf(baseInterval);
    assert Pow2(0) == 1 && Pow2(1) == 2 && Pow2(2) == 4 && Pow2(3) == 8 && Pow2(4) == 16;
    if 5 <= failures {
      Pow2Grows(4, failures - 1);
      Pow2Grows(4, failures);
    } else if 1 <= failures {
      assert failures in {1, 2, 3, 4};
    }
  }

  /** The shift is the part of a fifth of the delay that the unit asks for, from all of it off at 0 to all of it on
      near 1, without the fraction; a unit out of range shifts nothing. */
  lemma {:induction false} JitterIs(delay: int, unit: real)
    requires delay >= 0
    ensures !(0.0 <= unit < 1.0) ==> Jitter(delay, unit) == 0
    ensures 0.0 <= unit < 1.0 ==>
              var x, j := (unit * 2.0 - 1.0) * (delay / 5) as real, Jitter(delay, unit) as real;
              if x >= 0.0 then j <= x < j + 1.0 else j - 1.0 < x <= j
  {
    var u := if 0.0 <= unit < 1.0 then unit else 0.5;
    if delay / 5 == 0 {
      assert (unit * 2.0 - 1.0) * 0.0 == 0.0;
    }
    assert Share(0.5, delay / 5) == 0.0;
    TruncateIs(Share(u, delay / 5));
    hide Truncate;
  }

  lemma TruncateIs(x: real)
    ensures var t := Truncate(x) as real; if x >= 0.0 then t <= x < t + 1.0 else t - 1.0 < x <= t
    ensures x == 0.0 ==> Truncate(x) == 0
  {
  }

  /** The wait after a run that leaves `failures` consecutive failures. */
  predicate Waits(baseInterval: int, failures: nat, unit: real, delay: int) {
    var b := Backoff(baseInterval, failures);
    delay == Max(500_000_000, b + Jitter(b, unit)) && (failures > 0 ==> 500_000_000 <= delay <= 72_000_000_000)
  }

  // ---------- one run ----------

  /** What the world answers at every stage of a run, true for success; the mirroring part is that of
      CertificateApply. `mirroring` means the remote settings ask for it and a manager exists; `accepted` means
      the updated settings pass the last validation, after which `config` is in force whether or not the
      rest of the runtime takes them; `message` is the text of the error a failing stage reports. */
  datatype Run = Run(
    upsertNode: bool, heartbeat: bool, fetchNodes: bool, fetchSites: bool, fetchSettings: bool, settingsValid: bool,
    mirroring: bool, fetchCertificates: bool, certificates: seq<Mirror.Certificate>, fetch: string -> Mirror.Fetched,
    applyNodes: bool, applySites: bool, disk: Certs.Disk,
    applySettings: bool, accepted: bool, config: Config, applyRuntime: bool,
    message: string, startedAt: int, fetchedAt: int, endedAt: int, jitter: real)

  /** The first failing stage before certificates are fetched. */
  function EarlyFailure(r: Run): Option<string> {
    if !r.upsertNode then Some("fetch_upsert_node")
    else if !r.heartbeat then Some("fetch_heartbeat")
    else if !r.fetchNodes then Some("fetch_nodes")
    else if !r.fetchSites then Some("fetch_sites")
    else if !r.fetchSettings then Some("fetch_settings")
    else if !r.settingsValid then Some("validate_settings")
    else if r.mirroring && !r.fetchCertificates then Some("fetch_certificates")
    else None
  }

  /** The failing stage between fetching certificates and applying them. */
  function MiddleFailure(r: Run): Option<string> {
    if !r.applyNodes then Some("apply_nodes") else if !r.applySites then Some("apply_sites") else None
  }

  function LateFailure(r: Run): Option<string> {
    if !r.applySettings then Some("apply_settings")
    else if !r.accepted || !r.applyRuntime then Some("apply_settings_runtime")
    else None
  }

  function InputOf(r: Run): Certs.Input {
    Certs.Input(Mirror.RemotesOf(r.certificates), r.fetch, MiddleFailure(r).Some?, r.disk)
  }

  predicate Mirrors(r: Run) {
    EarlyFailure(r).None? && r.mirroring
  }

  /** The mirror after a run: touched only if mirroring is on and the run gets that far. */
  function MirrorAfter(m: Certs.State, r: Run, parse: Certs.Parse): Certs.State {
    if Mirrors(r) then Certs.Mirror(m, InputOf(r), parse).0 else m
  }

  predicate BuildFails(m: Certs.State, r: Run) {
    r.mirroring && Mirror.Build(Mirror.RemotesOf(r.certificates), m.cache, r.fetch).Failure?
  }

  /** The stage a run fails in, None if it succeeds. */
  function FailedStage(m: Certs.State, r: Run, parse: Certs.Parse): Option<string> {
    if EarlyFailure(r).Some? then EarlyFailure(r)
    else if BuildFails(m, r) then Some("fetch_certificate_bundle")
    else if MiddleFailure(r).Some? then MiddleFailure(r)
    else if r.mirroring && !Certs.Mirror(m, InputOf(r), parse).1 then Some("apply_certificates")
    else LateFailure(r)
  }

  /** Whether a run gets as far as marking the fetch, and as putting its configuration in force. */
  predicate Fetches(m: Certs.State, r: Run) {
    EarlyFailure(r).None? && !BuildFails(m, r)
  }

  predicate Configures(m: Certs.State, r: Run, parse: Certs.Parse) {
    && Fetches(m, r) && MiddleFailure(r).None? && (r.mirroring ==> Certs.Mirror(m, InputOf(r), parse).1)
    && r.applySettings && r.accepted
  }

  /** What the stages do to the status, and what the whole run does. */
  function StagesDone(m: Certs.State, s: Status, r: Run, parse: Certs.Parse): Status {
    var fetched := if Fetches(m, r) then Happens(s, FetchSucceeds(r.fetchedAt)) else s;
    if Configures(m, r, parse) then Happens(fetched, ConfigChanges(r.config)) else fetched
  }

  function RunDone(m: Certs.State, s: Status, r: Run, parse: Certs.Parse): Status {
    var done := StagesDone(m, Happens(s, AttemptStarts(r.startedAt)), r, parse);
    var error := FailedStage(m, r, parse);
    if error.Some? then Happens(done, RunFails(error.value, r.message, r.endedAt))
    else Happens(Happens(done, ApplySucceeds(r.endedAt)), RunSucceeds(r.endedAt))
  }

  // ---------- a run as a list of stages ----------

  /** Applying the list that was built goes through: it has the digest of the last one, or replaces it. */
  ghost predicate AppliesList(m: Certs.State, r: Run, parse: Certs.Parse) {
    var remote := Mirror.RemotesOf(r.certificates);
    var built := Mirror.Build(remote, m.cache, r.fetch);
    built.Success? ==> m.digest == Mirror.Digest(remote) || Certs.Replace(m.held, built.value.mirrored, r.disk, parse).1
  }

  /** The stages in order, each with whether it goes through; those about certificates do if they do not apply. */
  ghost function AllStages(m: Certs.State, r: Run, parse: Certs.Parse): seq<(string, bool)> {
    [("fetch_upsert_node", r.upsertNode), ("fetch_heartbeat", r.heartbeat), ("fetch_nodes", r.fetchNodes),
     ("fetch_sites", r.fetchSites), ("fetch_settings", r.fetchSettings), ("validate_settings", r.settingsValid),
     ("fetch_certificates", !r.mirroring || r.fetchCertificates),
     ("fetch_certificate_bundle",
      !r.mirroring || Mirror.Build(Mirror.RemotesOf(r.certificates), m.cache, r.fetch).Success?),
     ("apply_nodes", r.applyNodes), ("apply_sites", r.applySites),
     ("apply_certificates", !r.mirroring || AppliesList(m, r, parse)),
     ("apply_settings", r.applySettings), ("apply_settings_runtime", r.accepted && r.applyRuntime)]
  }

  ghost predicate FirstPass(stages: seq<(string, bool)>, n: nat) {
    n <= |stages| && forall i :: 0 <= i < n ==> stages[i].1
  }

  lemma PassOneMore(stages: seq<(string, bool)>, n: nat)
    requires n < |stages|
    ensures FirstPass(stages, n + 1) <==> FirstPass(stages, n) && stages[n].1
  {
  }

  lemma AppliesIs(m: Certs.State, r: Run, parse: Certs.Parse)
    requires r.mirroring && !BuildFails(m, r) && MiddleFailure(r).None?
    ensures Certs.Mirror(m, InputOf(r), parse).1 <==> AppliesList(m, r, parse)
  {
    hide Mirror.Build, Mirror.Digest, Certs.Replace, Certs.AttemptOf;
  }

  /** The first eight, twelve and thirteen stages. */
  lemma PassedMeans(m: Certs.State, r: Run, parse: Certs.Parse)
    ensures var stages := AllStages(m, r, parse);
            && |stages| == 13
            && (FirstPass(stages, 8) <==> EarlyFailure(r).None? && !BuildFails(m, r))
            && (FirstPass(stages, 11) <==>
                  FirstPass(stages, 8) && MiddleFailure(r).None? && (r.mirroring ==> AppliesList(m, r, parse)))
            && (FirstPass(stages, 12) <==> FirstPass(stages, 11) && r.applySettings)
            && (FirstPass(stages, 13) <==> FirstPass(stages, 11) && LateFailure(r).None?)
  {
    hide AppliesList, Mirror.Build, Mirror.RemotesOf;
    var stages := AllStages(m, r, parse);
    assert FirstPass(stages, 8) <==>
      stages[0].1 && stages[1].1 && stages[2].1 && stages[3].1 && stages[4].1 && stages[5].1 && stages[6].1 && stages[7].1;
    PassOneMore(stages, 8);
    PassOneMore(stages, 9);
    PassOneMore(stages, 10);
    PassOneMore(stages, 11);
    PassOneMore(stages, 12);
  }

  lemma EarlyStage(m: Certs.State, r: Run, parse: Certs.Parse, i: nat)
    requires i < 8 && FirstPass(AllStages(m, r, parse), i) && !AllStages(m, r, parse)[i].1
    ensures FailedStage(m, r, parse) == Some(AllStages(m, r, parse)[i].0)
  {
    hide AppliesList, Certs.Mirror, Mirror.Build, Mirror.RemotesOf, InputOf;
    var stages := AllStages(m, r, parse);
    assert i > 0 ==> stages[0].1;
    assert i > 1 ==> stages[1].1;
    assert i > 2 ==> stages[2].1;
    assert i > 3 ==> stages[3].1;
    assert i > 4 ==> stages[4].1;
    assert i > 5 ==> stages[5].1;
    assert i > 6 ==> stages[6].1;
    hide FirstPass, LateFailure, MiddleFailure;
    if i == 7 {
      assert BuildFails(m, r);
    }
  }

  lemma LateFailures(m: Certs.State, r: Run, parse: Certs.Parse)
    requires EarlyFailure(r).None? && !BuildFails(m, r)
    ensures FailedStage(m, r, parse) ==
            if !r.applyNodes then Some("apply_nodes")
            else if !r.applySites then Some("apply_sites")
            else if r.mirroring && !AppliesList(m, r, parse) then Some("apply_certificates")
            else if !r.applySettings then Some("apply_settings")
            else if !(r.accepted && r.applyRuntime) then Some("apply_settings_runtime")
            else None
  {
    hide AppliesList, Certs.Mirror, Mirror.Build, InputOf, EarlyFailure, BuildFails;
    if r.mirroring && MiddleFailure(r).None? {
      AppliesIs(m, r, parse);
    }
  }

  lemma LateStage(m: Certs.State, r: Run, parse: Certs.Parse, i: nat)
    requires 8 <= i < 13 && FirstPass(AllStages(m, r, parse), i) && !AllStages(m, r, parse)[i].1
    ensures FailedStage(m, r, parse) == Some(AllStages(m, r, parse)[i].0)
  {
    hide AllStages, AppliesList, Mirror.Build, EarlyFailure, BuildFails, FailedStage;
    var stages := AllStages(m, r, parse);
    PassedMeans(m, r, parse);
    assert FirstPass(stages, 8);
    LateFailures(m, r, parse);
    LateStagesAre(m, r, parse);
    assert forall k :: 8 <= k < i ==> stages[k].1;
    hide FirstPass;
    if i == 8 {
    } else if i == 9 {
    } else if i == 10 {
      assert stages[8].1 && stages[9].1;
    } else if i == 11 {
      assert stages[8].1 && stages[9].1 && stages[10].1;
    } else {
      assert stages[8].1 && stages[9].1 && stages[10].1 && stages[11].1;
    }
  }

  lemma LateStagesAre(m: Certs.State, r: Run, parse: Certs.Parse)
    ensures var stages := AllStages(m, r, parse);
            && |stages| == 13
            && stages[8] == ("apply_nodes", r.applyNodes) && stages[9] == ("apply_sites", r.applySites)
            && stages[10] == ("apply_certificates", !r.mirroring || AppliesList(m, r, parse))
            && stages[11] == ("apply_settings", r.applySettings)
            && stages[12] == ("apply_settings_runtime", r.accepted && r.applyRuntime)
  {
    hide AppliesList, Mirror.Build, Mirror.RemotesOf;
  }

  /** A run fails in the first of its stages that does not go through; the fetch is marked after the first eight,
      and the configuration in force once the settings are applied and accepted. */
  lemma {:induction false} FailsInFirst(m: Certs.State, r: Run, parse: Certs.Parse, i: nat)
    ensures var stages := AllStages(m, r, parse);
            && |stages| == 13
            && (FailedStage(m, r, parse).None? <==> FirstPass(stages, 13))
            && (i < 13 && FirstPass(stages, i) && !stages[i].1 ==> FailedStage(m, r, parse) == Some(stages[i].0))
            && (Fetches(m, r) <==> FirstPass(stages, 8))
            && (Configures(m, r, parse) <==> FirstPass(stages, 12) && r.accepted)
  {
    PassedMeans(m, r, parse);
    if r.mirroring && !BuildFails(m, r) && MiddleFailure(r).None? {
      AppliesIs(m, r, parse);
    }
    hide AllStages, AppliesList, Certs.Mirror, Mirror.Build, Mirror.RemotesOf, InputOf, FirstPass, BuildFails;
    if i < 13 && FirstPass(AllStages(m, r, parse), i) && !AllStages(m, r, parse)[i].1 {
      if i < 8 {
        EarlyStage(m, r, parse, i);
      } else {
        LateStage(m, r, parse, i);
      }
    }
  }

  lemma MirrorSteps(m: Certs.State, r: Run, parse: Certs.Parse)
    ensures var m', remote := Certs.Mirror(m, InputOf(r), parse).0, Mirror.RemotesOf(r.certificates);
            var built := Mirror.Build(remote, m.cache, r.fetch);
            var reached := built.Success? && MiddleFailure(r).None?;
            && m'.cache == (if built.Success? then built.value.cache else m.cache)
            && m'.digest == (if reached && AppliesList(m, r, parse) then Mirror.Digest(remote) else m.digest)
            && m'.held == (if reached && m.digest != Mirror.Digest(remote)
                           then Certs.Replace(m.held, built.value.mirrored, r.disk, parse).0 else m.held)
  {
    hide Mirror.Build, Mirror.Digest, Mirror.RemotesOf, Certs.Replace, Certs.AttemptOf;
  }

  /** What a run leaves of the mirror: the cache of a built list; the digest of an applied one; and on disk whatever
      replacing left, if it came to that. */
  lemma {:induction false} MirrorAfterIs(m: Certs.State, r: Run, parse: Certs.Parse)
    ensures var stages, remote, m' := AllStages(m, r, parse), Mirror.RemotesOf(r.certificates), MirrorAfter(m, r, parse);
            var built := Mirror.Build(remote, m.cache, r.fetch);
            && m'.cache == (if r.mirroring && FirstPass(stages, 8) && built.Success? then built.value.cache else m.cache)
            && m'.digest == (if r.mirroring && FirstPass(stages, 11) then Mirror.Digest(remote) else m.digest)
            && m'.held == (if r.mirroring && FirstPass(stages, 10) && built.Success? && m.digest != Mirror.Digest(remote)
                           then Certs.Replace(m.held, built.value.mirrored, r.disk, parse).0 else m.held)
  {
    PassedMeans(m, r, parse);
    MiddlePasses(m, r, parse);
    MirrorSteps(m, r, parse);
    hide AllStages, FirstPass, AppliesList, Certs.Mirror, Mirror.Build, Mirror.Digest, Certs.Replace, InputOf, EarlyFailure;
  }

  lemma MiddlePasses(m: Certs.State, r: Run, parse: Certs.Parse)
    ensures var stages := AllStages(m, r, parse);
            |stages| == 13 && (FirstPass(stages, 10) <==> FirstPass(stages, 8) && MiddleFailure(r).None?)
  {
    hide AppliesList, Mirror.Build, Mirror.RemotesOf;
    PassOneMore(AllStages(m, r, parse), 8);
    PassOneMore(AllStages(m, r, parse), 9);
    hide FirstPass;
  }

  function MirrorAfterAll(m: Certs.State, runs: seq<Run>, n: nat, parse: Certs.Parse): Certs.State
    requires n <= |runs|
  {
    if n == 0 then m else MirrorAfter(MirrorAfterAll(m, runs, n - 1, parse), runs[n - 1], parse)
  }

  /** Failed runs since the last successful one among the first n, on top of an earlier count. */
  function CountAfter(m: Certs.State, earlier: nat, runs: seq<Run>, n: nat, parse: Certs.Parse): nat
    requires n <= |runs|
  {
    if n == 0 then earlier
    else if FailedStage(MirrorAfterAll(m, runs, n - 1, parse), runs[n - 1], parse).None? then 0
    else CountAfter(m, earlier, runs, n - 1, parse) + 1
  }

  function StatusAfter(m: Certs.State, s: Status, runs: seq<Run>, n: nat, parse: Certs.Parse): Status
    requires n <= |runs|
  {
    if n == 0 then s
    else RunDone(MirrorAfterAll(m, runs, n - 1, parse), StatusAfter(m, s, runs, n - 1, parse), runs[n - 1], parse)
  }

  function Counts(m: Certs.State, earlier: nat, runs: seq<Run>, n: nat, parse: Certs.Parse): seq<nat>
    requires n <= |runs|
  {
    if n == 0 then [] else Counts(m, earlier, runs, n - 1, parse) + [CountAfter(m, earlier, runs, n, parse)]
  }

  // ---------- fail-close over all runs of the loop ----------

  predicate Succeeds(m: Certs.State, runs: seq<Run>, i: nat, parse: Certs.Parse)
    requires i < |runs|
  {
    FailedStage(MirrorAfterAll(m, runs, i, parse), runs[i], parse).None?
  }

  /** The configuration of the last run that put one in force. */
  function ConfigAfter(m: Certs.State, was: Config, runs: seq<Run>, n: nat, parse: Certs.Parse): Config
    requires n <= |runs|
  {
    if n == 0 then was
    else if Configures(MirrorAfterAll(m, runs, n - 1, parse), runs[n - 1], parse) then runs[n - 1].config
    else ConfigAfter(m, was, runs, n - 1, parse)
  }

  /** When the last successful run ended. */
  function SuccessAfter(m: Certs.State, was: Option<int>, runs: seq<Run>, n: nat, parse: Certs.Parse): Option<int>
    requires n <= |runs|
  {
    if n == 0 then was
    else if Succeeds(m, runs, n - 1, parse) then Some(runs[n - 1].endedAt)
    else SuccessAfter(m, was, runs, n - 1, parse)
  }

  lemma RunDoneIs(m: Certs.State, s: Status, r: Run, parse: Certs.Parse)
    ensures var t, ok := RunDone(m, s, r, parse), FailedStage(m, r, parse).None?;
            && t.follower == s.follower && t.lastAttemptAt == Some(r.startedAt)
            && t.config == (if Configures(m, r, parse) then r.config else s.config)
            && t.lastSuccessAt == (if ok then Some(r.endedAt) else s.lastSuccessAt)
            && t.lastFailureAt == (if ok then s.lastFailureAt else Some(r.endedAt))
            && t.consecutiveFailures == (if ok then 0 else s.consecutiveFailures + 1)
            && t.lastFetchAt == (if Fetches(m, r) then Some(r.fetchedAt) else s.lastFetchAt)
            && t.lastApplyAt == (if ok then Some(r.endedAt) else s.lastApplyAt)
            && t.lastFailedStage == (if ok then "" else FailedStage(m, r, parse).value)
            && t.lastError == (if ok then "" else Trim(r.message))
  {
    StagesAreNamed(m, r, parse);
    hide FailedStage, Configures, Fetches, StageName, Trim;
  }

  lemma Named(stage: string)
    requires stage != "" && Trimmed(stage)
    ensures StageName(stage) == stage
  {
    TrimFacts(stage);
  }

  lemma StagesAreNamed(m: Certs.State, r: Run, parse: Certs.Parse)
    ensures var stage := FailedStage(m, r, parse); stage.Some? ==> StageName(stage.value) == stage.value
  {
    hide StageName;
    Named("fetch_upsert_node");
    Named("fetch_heartbeat");
    Named("fetch_nodes");
    Named("fetch_sites");
    Named("fetch_settings");
    Named("validate_settings");
    Named("fetch_certificates");
    Named("fetch_certificate_bundle");
    Named("apply_nodes");
    Named("apply_sites");
    Named("apply_certificates");
    Named("apply_settings");
    Named("apply_settings_runtime");
    hide Certs.Mirror, BuildFails, Trimmed;
  }

  lemma {:induction false} StatusIs(m: Certs.State, s: Status, runs: seq<Run>, n: nat, parse: Certs.Parse)
    requires n <= |runs| && s.consecutiveFailures >= 0
    ensures var t := StatusAfter(m, s, runs, n, parse);
            && t.follower == s.follower
            && t.lastAttemptAt == (if n == 0 then s.lastAttemptAt else Some(runs[n - 1].startedAt))
            && t.config == ConfigAfter(m, s.config, runs, n, parse)
            && t.lastSuccessAt == SuccessAfter(m, s.lastSuccessAt, runs, n, parse)
            && (t.lastFailureAt.Some? <==> s.lastFailureAt.Some? || exists i :: 0 <= i < n && !Succeeds(m, runs, i, parse))
            && t.consecutiveFailures == CountAfter(m, s.consecutiveFailures, runs, n, parse)
  {
    hide RunDone, FailedStage, Configures, MirrorAfterAll;
    if n > 0 {
      StatusIs(m, s, runs, n - 1, parse);
      RunDoneIs(MirrorAfterAll(m, runs, n - 1, parse), StatusAfter(m, s, runs, n - 1, parse), runs[n - 1], parse);
      assert Succeeds(m, runs, n - 1, parse) || !Succeeds(m, runs, n - 1, parse);
    }
  }

  /** Whatever the runs, and whatever configurations they put in force: after them fail-close is active
      exactly if the node is a follower, the configuration last in force asks for it, and either the failed
      runs since the last success reach its threshold, or some run ever failed and the last success, or if
      there is none the start of the last run, is longer ago than its stale period. */
  lemma {:induction false} FailCloseAfterRunsExactly(
      m: Certs.State, s: Status, runs: seq<Run>, n: nat, parse: Certs.Parse, now: int)
    requires 0 < n <= |runs| && s.consecutiveFailures >= 0
    ensures var c, success := ConfigAfter(m, s.config, runs, n, parse), SuccessAfter(m, s.lastSuccessAt, runs, n, parse);
            var threshold, stale := if c.failures <= 0 then 10 else c.failures,
                                    if c.staleAfter.Some? && c.staleAfter.value > 0 then c.staleAfter.value else 300_000_000_000;
            ShouldFailClose(StatusAfter(m, s, runs, n, parse), now)
            <==> s.follower && c.failClose &&
                 (|| CountAfter(m, s.consecutiveFailures, runs, n, parse) >= threshold
                  || ((s.lastFailureAt.Some? || exists i :: 0 <= i < n && !Succeeds(m, runs, i, parse))
                      && now - (if success.Some? then success.value else runs[n - 1].startedAt) > stale))
  {
    hide StatusAfter, ConfigAfter, SuccessAfter, CountAfter, Succeeds;
    StatusIs(m, s, runs, n, parse);
  }

  // ---------- the mirror over all runs of the loop ----------

  ghost predicate GoodRun(r: Run, truth: Mirror.Truth) {
    Mirrors(r) ==> Certs.GoodInput(InputOf(r), truth)
  }

  lemma {:induction false} LoopTells(
      held: Certs.Held, runs: seq<Run>, truth: Mirror.Truth, parse: Certs.Parse, n: nat)
    requires n <= |runs| && forall i :: 0 <= i < |runs| ==> GoodRun(runs[i], truth)
    ensures Certs.Tells(MirrorAfterAll(Certs.Start(held), runs, n, parse), truth, parse)
  {
    if n > 0 {
      LoopTells(held, runs, truth, parse, n - 1);
      if Mirrors(runs[n - 1]) {
        var m := MirrorAfterAll(Certs.Start(held), runs, n - 1, parse);
        Certs.MirrorKeepsTelling(m, InputOf(runs[n - 1]), truth, parse);
      }
    }
  }

  /** Over any runs, with failures at any stage and mirroring switched on and off: after a mirroring run
      that succeeds, the manager serves the remote set exactly unless the digest skipped the apply although
      the set last applied has other keys or has been spoiled by a failed apply since. */
  lemma {:induction false} LoopServesRemoteExactly(
      held: Certs.Held, runs: seq<Run>, truth: Mirror.Truth, parse: Certs.Parse, n: nat)
    requires n < |runs| && forall i :: 0 <= i < |runs| ==> GoodRun(runs[i], truth)
    requires runs[n].mirroring && FailedStage(MirrorAfterAll(Certs.Start(held), runs, n, parse), runs[n], parse).None?
    ensures var s, s' := MirrorAfterAll(Certs.Start(held), runs, n, parse),
                         MirrorAfterAll(Certs.Start(held), runs, n + 1, parse);
            var remote := Mirror.RemotesOf(runs[n].certificates);
            Certs.Serves(s'.held, remote, truth, parse)
            <==> !(s.digest == Mirror.Digest(remote)
                   && (!Certs.SameKeys(s.last, remote) || Certs.Spoiled(s.last, s.since, truth, parse)))
  {
    LoopTells(held, runs, truth, parse, n);
    Certs.StepServesExactly(MirrorAfterAll(Certs.Start(held), runs, n, parse), InputOf(runs[n]), truth, parse);
  }

  // ---------- the loop ----------

  class SyncLoop {
    const runtime: RuntimeState
    const manager: Certs.Manager
    const parse: Certs.Parse
    var cache: Mirror.Cache
    var digest: string
    var consecutiveFailures: nat
    ghost var last: seq<Mirror.Remote>
    ghost var since: seq<Certs.Attempt>

    ghost function MirrorState(): Certs.State
      reads this, manager
    {
      Certs.State(cache, digest, manager.Value(), last, since)
    }

    constructor (runtime: RuntimeState, manager: Certs.Manager, parse: Certs.Parse)
      ensures this.runtime == runtime && this.manager == manager && this.parse == parse
      ensures MirrorState() == Certs.Start(manager.Value()) && consecutiveFailures == 0
    {
      this.runtime, this.manager, this.parse := runtime, manager, parse;
      cache, digest, consecutiveFailures := map[], Mirror.UNINITIALIZED, 0;
      last, since := [], [];
    }

    method FetchStages(r: Run) returns (error: Option<string>)
      ensures error == EarlyFailure(r)
    {
      if !r.upsertNode { return Some("fetch_upsert_node"); }
      if !r.heartbeat { return Some("fetch_heartbeat"); }
      if !r.fetchNodes { return Some("fetch_nodes"); }
      if !r.fetchSites { return Some("fetch_sites"); }
      if !r.fetchSettings { return Some("fetch_settings"); }
      if !r.settingsValid { return Some("validate_settings"); }
      if r.mirroring && !r.fetchCertificates { return Some("fetch_certificates"); }
      return None;
    }

    /** Builds the mirrored list; a failure leaves the cache alone. */
    method BuildStage(r: Run) returns (ok: bool, newDigest: string, mirrored: seq<Mirror.Mirrored>)
      modifies this`cache
      ensures var built := Mirror.Build(Mirror.RemotesOf(r.certificates), old(cache), r.fetch);
              && (ok <==> built.Success?)
              && cache == (if ok then built.value.cache else old(cache))
              && (ok ==> newDigest == Mirror.Digest(Mirror.RemotesOf(r.certificates)) && mirrored == built.value.mirrored)
    {
      var built, d := Mirror.BuildMirroredCertificates(r.certificates, cache, r.fetch);
      if built.Failure? {
        return false, "", [];
      }
      cache := built.value.cache;
      return true, d, built.value.mirrored;
    }

    /** Applies the mirrored list unless the digest says it is applied already. */
    method ApplyStage(remote: seq<Mirror.Remote>, newDigest: string, mirrored: seq<Mirror.Mirrored>, disk: Certs.Disk)
      returns (ok: bool)
      requires newDigest == Mirror.Digest(remote)
      modifies this`digest, this`last, this`since, manager
      ensures (MirrorState(), ok) == Certs.Apply(old(MirrorState()), remote, mirrored, disk, parse)
    {
      if digest == newDigest {
        return true;
      }
      ok := manager.ReplaceMirrored(mirrored, disk, parse);
      if !ok {
        since := since + [Certs.AttemptOf(mirrored, disk, parse)];
        return false;
      }
      digest := newDigest;
      last, since := remote, [];
    }

    /** All stages of a run, up to the first that fails. */
    method Stages(r: Run) returns (error: Option<string>)
      modifies this`cache, this`digest, this`last, this`since, manager, runtime
      ensures error == FailedStage(old(MirrorState()), r, parse) && MirrorState() == MirrorAfter(old(MirrorState()), r, parse)
      ensures runtime.status == StagesDone(old(MirrorState()), old(runtime.status), r, parse)
    {
      hide Happens;
      error := FetchStages(r);
      if error.Some? {
        return;
      }
      var newDigest, mirrored: seq<Mirror.Mirrored> := "", [];
      if r.mirroring {
        var ok;
        ok, newDigest, mirrored := BuildStage(r);
        if !ok {
          return Some("fetch_certificate_bundle");
        }
      }
      runtime.MarkFetchSuccess(r.fetchedAt);
      if !r.applyNodes {
        return Some("apply_nodes");
      }
      if !r.applySites {
        return Some("apply_sites");
      }
      if r.mirroring {
        var ok := ApplyStage(Mirror.RemotesOf(r.certificates), newDigest, mirrored, r.disk);
        if !ok {
          return Some("apply_certificates");
        }
      }
      if !r.applySettings {
        return Some("apply_settings");
      }
      if !r.accepted {
        return Some("apply_settings_runtime");
      }
      runtime.UpdateConfig(r.config);
      if !r.applyRuntime {
        return Some("apply_settings_runtime");
      }
      return None;
    }

    /** One run. Exactly one failure or one success is marked. */
    method RunOnce(r: Run) returns (error: Option<string>)
      modifies this`cache, this`digest, this`last, this`since, manager, runtime
      ensures error == FailedStage(old(MirrorState()), r, parse) && MirrorState() == MirrorAfter(old(MirrorState()), r, parse)
      ensures runtime.status == RunDone(old(MirrorState()), old(runtime.status), r, parse)
    {
      hide Certs.Mirror, FailedStage, MirrorAfter, StagesDone, Happens;
      runtime.StartAttempt(r.startedAt);
      error := Stages(r);
      if error.Some? {
        runtime.MarkFailure(error.value, r.message, r.endedAt);
        return;
      }
      runtime.MarkApplySuccess(r.endedAt);
      runtime.MarkSuccess(r.endedAt);
    }

    /** The loop over any runs: after each of them its own failure count is the runtime status's. */
    method Loop(baseInterval: int, runs: seq<Run>) returns (counts: seq<nat>)
      requires consecutiveFailures == runtime.status.consecutiveFailures
      modifies this, manager, runtime
      ensures consecutiveFailures == runtime.status.consecutiveFailures
      ensures MirrorState() == MirrorAfterAll(old(MirrorState()), runs, |runs|, parse)
      ensures counts == Counts(old(MirrorState()), old(consecutiveFailures), runs, |runs|, parse)
      ensures runtime.status == StatusAfter(old(MirrorState()), old(runtime.status), runs, |runs|, parse)
    {
      hide FailedStage, MirrorAfter, RunDone;
      counts := [];
      for i := 0 to |runs|
        invariant consecutiveFailures == runtime.status.consecutiveFailures
        invariant MirrorState() == MirrorAfterAll(old(MirrorState()), runs, i, parse)
        invariant consecutiveFailures == CountAfter(old(MirrorState()), old(consecutiveFailures), runs, i, parse)
        invariant counts == Counts(old(MirrorState()), old(consecutiveFailures), runs, i, parse)
        invariant runtime.status == StatusAfter(old(MirrorState()), old(runtime.status), runs, i, parse)
      {
        var delay := Iterate(baseInterval, runs[i]);
        counts := counts + [runtime.status.consecutiveFailures];
      }
    }

    /** One turn of the loop and the wait it decides on. */
    method Iterate(baseInterval: int, r: Run) returns (delay: int)
      requires consecutiveFailures == runtime.status.consecutiveFailures
      modifies this, manager, runtime
      ensures consecutiveFailures == runtime.status.consecutiveFailures
      ensures consecutiveFailures
              == if FailedStage(old(MirrorState()), r, parse).None? then 0 else old(consecutiveFailures) + 1
      ensures MirrorState() == MirrorAfter(old(MirrorState()), r, parse)
      ensures runtime.status == RunDone(old(MirrorState()), old(runtime.status), r, parse)
      ensures Waits(baseInterval, consecutiveFailures, r.jitter, delay)
    {
      hide FailedStage, MirrorAfter, RunDone;
      RunDoneIs(MirrorState(), runtime.status, r, parse);
      var error := RunOnce(r);
      if error.Some? {
        consecutiveFailures := consecutiveFailures + 1;
      } else {
        consecutiveFailures := 0;
      }
      delay := NextClusterSyncDelay(baseInterval, consecutiveFailures, r.jitter);
      if consecutiveFailures > 0 {
        FailingDelayBounded(baseInterval, consecutiveFailures, r.jitter);
      }
    }
  }
}
