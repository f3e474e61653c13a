/** Choosing an upstream: health filtering and the five balancing strategies. */
module UpstreamPool {
  import opened Common
  import opened UpstreamHealth

  const MAX_PLAN_WEIGHT := 20

  datatype Strategy = RoundRobin | Weighted | Random | IpHash | LeastConn

  // ---------- the weighted plan ----------

  function Repeat(i: nat, n: int): seq<nat> {
    if n <= 0 then [] else Repeat(i, n - 1) + [i]
  }

  /** The turns of the first n targets. */
  function Turns(weights: seq<int>, n: nat): seq<nat>
    requires n <= |weights|
  {
    if n == 0 then [] else Turns(weights, n - 1) + Repeat(n - 1, Min(weights[n - 1], MAX_PLAN_WEIGHT))
  }

  function Indices(n: nat): seq<nat> {
    if n == 0 then [] else Indices(n - 1) + [n - 1]
  }

  function PlanOf(weights: seq<int>): seq<nat> {
    var plan := Turns(weights, |weights|);
    if plan == [] then Indices(|weights|) else plan
  }

  method BuildWeightedPlan(weights: seq<int>) returns (plan: seq<nat>)
    ensures plan == PlanOf(weights)
  {
    plan := [];
    for i := 0 to |weights|
      invariant plan == Turns(weights, i)
    {
      var weight := weights[i];
      if weight > MAX_PLAN_WEIGHT {
        weight := MAX_PLAN_WEIGHT;
      }
      var n := 0;
      ghost var before := plan;
      while n < weight
        invariant 0 <= n <= Max(weight, 0)
        invariant plan == before + Repeat(i, n)
      {
        plan := plan + [i];
        n := n + 1;
      }
    }
    if |plan| == 0 {
      for i := 0 to |weights|
        invariant plan == Indices(i)
      {
        plan := plan + [i];
      }
    }
  }

  function Count(plan: seq<nat>, i: nat): nat {
    if plan == [] then 0 else Count(plan[..|plan| - 1], i) + if plan[|plan| - 1] == i then 1 else 0
  }

  lemma {:induction false} CountConcat(a: seq<nat>, b: seq<nat>, i: nat)
    ensures Count(a + b, i) == Count(a, i) + Count(b, i)
  {
    if b == [] {
      assert a + b == a;
    } else {
      assert (a + b)[..|a + b| - 1] == a + b[..|b| - 1];
      CountConcat(a, b[..|b| - 1], i);
    }
  }

  lemma {:induction false} CountRepeat(j: nat, n: int, i: nat)
    ensures Count(Repeat(j, n), i) == if i == j then Max(n, 0) else 0
    ensures |Repeat(j, n)| == Max(n, 0)
  {
    if n > 0 {
      CountRepeat(j, n - 1, i);
      CountConcat(Repeat(j, n - 1), [j], i);
      assert Count([j], i) == Count([], i) + if j == i then 1 else 0;
    }
  }

  lemma {:induction false} CountTurns(weights: seq<int>, n: nat, i: nat)
    requires n <= |weights|
    ensures Count(Turns(weights, n), i) == if i < n then Max(Min(weights[i], MAX_PLAN_WEIGHT), 0) else 0
  {
    hide Count, Repeat;
    if n == 0 {
      CountNothing(i);
    } else {
      var w := Min(weights[n - 1], MAX_PLAN_WEIGHT);
      CountTurns(weights, n - 1, i);
      CountRepeat(n - 1, w, i);
      CountConcat(Turns(weights, n - 1), Repeat(n - 1, w), i);
    }
  }

  lemma CountNothing(i: nat)
    ensures Count([], i) == 0
  {
  }

  lemma {:induction false} TurnsBelow(weights: seq<int>, n: nat)
    requires n <= |weights|
    ensures forall j :: 0 <= j < |Turns(weights, n)| ==> Turns(weights, n)[j] < n
  {
    hide Repeat;
    if n > 0 {
      TurnsBelow(weights, n - 1);
      RepeatIsConstant(n - 1, Min(weights[n - 1], MAX_PLAN_WEIGHT));
    }
  }

  lemma {:induction false} RepeatIsConstant(i: nat, n: int)
    ensures forall j :: 0 <= j < |Repeat(i, n)| ==> Repeat(i, n)[j] == i
  {
    if n > 0 {
      RepeatIsConstant(i, n - 1);
    }
  }

  lemma {:induction false} IndicesAre(n: nat, i: nat)
    ensures |Indices(n)| == n && (forall j :: 0 <= j < n ==> Indices(n)[j] == j)
    ensures Count(Indices(n), i) == if i < n then 1 else 0
  {
    if n > 0 {
      IndicesAre(n - 1, i);
      CountConcat(Indices(n - 1), [n - 1], i);
      assert Count([n - 1], i) == Count([], i) + if n - 1 == i then 1 else 0;
    }
  }

  /** A plan gives target i exactly min(weight, 20) turns; targets are built with weight at least one. */
  lemma PlanSharesTurns(weights: seq<int>, i: nat)
    requires i < |weights| && forall j :: 0 <= j < |weights| ==> weights[j] > 0
    ensures Count(PlanOf(weights), i) == Min(weights[i], 20)
    ensures PlanOf(weights) != [] && forall j :: 0 <= j < |PlanOf(weights)| ==> PlanOf(weights)[j] < |weights|
  {
    CountTurns(weights, |weights|, i);
    CountNothing(i);
    TurnsBelow(weights, |weights|);
  }

  // ---------- cyclic turns ----------

  /** How many of the picks with counter values k, ..., k+n-1 get index i. */
  function Picks(plan: seq<nat>, k: nat, n: nat, i: nat): nat
    requires plan != []
  {
    if n == 0 then 0 else Picks(plan, k, n - 1, i) + if plan[(k + n - 1) % |plan|] == i then 1 else 0
  }

  lemma ModOfSum(k: nat, m: nat)
    requires m > 0
    ensures (k + m) % m == k % m
  {
    var q := k / m;
    assert (q + 1) * m == q * m + m;
    ModUnique(k + m, m, q + 1, k % m);
  }

  lemma {:induction false} PicksSplit(plan: seq<nat>, k: nat, m: nat, n: nat, i: nat)
    requires plan != []
    ensures Picks(plan, k, m + n, i) == Picks(plan, k, m, i) + Picks(plan, k + m, n, i)
    decreases n
  {
    if n > 0 {
      PicksSplit(plan, k, m, n - 1, i);
    }
  }

  lemma {:induction false} FirstRound(plan: seq<nat>, n: nat, i: nat)
    requires plan != [] && n <= |plan|
    ensures Picks(plan, 0, n, i) == Count(plan[..n], i)
  {
    if n > 0 {
      FirstRound(plan, n - 1, i);
      ModUnique(n - 1, |plan|, 0, n - 1);
      assert plan[..n][..n - 1] == plan[..n - 1];
    }
  }

  lemma {:induction false} AnyRound(plan: seq<nat>, k: nat, i: nat)
    requires plan != []
    ensures Picks(plan, k, |plan|, i) == Count(plan, i)
    decreases k
  {
    var m := |plan|;
    if k == 0 {
      FirstRound(plan, m, i);
      assert plan[..m] == plan;
    } else {
      AnyRound(plan, k - 1, i);
      PicksSplit(plan, k - 1, 1, m - 1, i);
      PicksSplit(plan, k, m - 1, 1, i);
      ModOfSum(k - 1, m);
      assert Picks(plan, k - 1, 1, i) == Picks(plan, k - 1, 0, i) + if plan[(k - 1) % m] == i then 1 else 0;
      assert Picks(plan, k + m - 1, 1, i) == Picks(plan, k + m - 1, 0, i) + if plan[(k - 1 + m) % m] == i then 1 else 0;
    }
  }

  lemma {:induction false} ManyRounds(plan: seq<nat>, k: nat, rounds: nat, i: nat)
    requires plan != []
    ensures Picks(plan, k, rounds * |plan|, i) == rounds * Count(plan, i)
    decreases rounds
  {
    if rounds > 0 {
      ManyRounds(plan, k, rounds - 1, i);
      assert rounds * |plan| == (rounds - 1) * |plan| + |plan|;
      PicksSplit(plan, k, (rounds - 1) * |plan|, |plan|, i);
      AnyRound(plan, k + (rounds - 1) * |plan|, i);
      assert rounds * Count(plan, i) == (rounds - 1) * Count(plan, i) + Count(plan, i);
    }
  }

  /** While all targets are healthy, any |plan| consecutive weighted picks, wherever the counter
      stands, choose target i exactly min(weight, 20) times. */
  lemma WeightedFairness(weights: seq<int>, k: nat, i: nat)
    requires i < |weights| && forall j :: 0 <= j < |weights| ==> weights[j] > 0
    ensures PlanOf(weights) != []
    ensures Picks(PlanOf(weights), k, |PlanOf(weights)|, i) == Min(weights[i], 20)
  {
    PlanSharesTurns(weights, i);
    AnyRound(PlanOf(weights), k, i);
  }

  /** With n healthy targets throughout, any rounds * n consecutive round-robin picks choose each of
      them exactly `rounds` times. Round robin walks the plan 0, 1, ..., n-1. */
  lemma RoundRobinFairness(n: nat, k: nat, rounds: nat, i: nat)
    requires i < n
    ensures |Indices(n)| == n && forall c: nat :: Indices(n)[c % n] == c % n
    ensures Picks(Indices(n), k, rounds * n, i) == rounds
  {
    IndicesAre(n, i);
    ManyRounds(Indices(n), k, rounds, i);
    forall c: nat
      ensures Indices(n)[c % n] == c % n
    {
    }
  }

  // ---------- weighted draws over part of the pool ----------

  function Prefix(weights: seq<int>, n: nat): int
    requires n <= |weights|
  {
    if n == 0 then 0 else Prefix(weights, n - 1) + weights[n - 1]
  }

  /** The target a draw lands on, walking the weights from target `from`. */
  function DrawFrom(weights: seq<int>, from: nat, n: int): (i: nat)
    requires from < |weights|
    ensures from <= i < |weights|
    decreases |weights| - from
  {
    if n < weights[from] then from
    else if from + 1 == |weights| then from
    else DrawFrom(weights, from + 1, n - weights[from])
  }

  /** The index a random number `draw` selects: it is asked for below the total weight, or below the
      number of targets if the weights add up to nothing. */
  function DrawIndex(weights: seq<int>, draw: nat): (i: nat)
    requires weights != []
    ensures i < |weights|
  {
    var total := Prefix(weights, |weights|);
    if total <= 0 then draw % |weights| else DrawFrom(weights, 0, draw % total)
  }

  lemma {:induction false} PrefixGrows(weights: seq<int>, a: nat, b: nat)
    requires a <= b <= |weights| && forall j :: 0 <= j < |weights| ==> weights[j] > 0
    ensures Prefix(weights, a) <= Prefix(weights, b)
    decreases b
  {
    if a < b {
      PrefixGrows(weights, a, b - 1);
    }
  }

  lemma {:induction false} DrawLands(weights: seq<int>, from: nat, n: int)
    requires from < |weights| && forall j :: 0 <= j < |weights| ==> weights[j] > 0
    requires 0 <= n && Prefix(weights, from) + n < Prefix(weights, |weights|)
    ensures var i := DrawFrom(weights, from, n);
            from <= i < |weights| && Prefix(weights, i) <= Prefix(weights, from) + n < Prefix(weights, i + 1)
    decreases |weights| - from
  {
    if n >= weights[from] && from + 1 < |weights| {
      DrawLands(weights, from + 1, n - weights[from]);
    }
  }

  ghost function Interval(lo: int, hi: int): set<int>
    decreases hi - lo
  {
    if lo >= hi then {} else Interval(lo, hi - 1) + {hi - 1}
  }

  lemma {:induction false} IntervalIs(lo: int, hi: int)
    requires lo <= hi
    ensures |Interval(lo, hi)| == hi - lo
    ensures forall n :: n in Interval(lo, hi) <==> lo <= n < hi
    decreases hi - lo
  {
    if lo < hi {
      IntervalIs(lo, hi - 1);
    }
  }

  /** The draws below the total weight that select target i. */
  ghost function DrawsOf(weights: seq<int>, i: nat): set<int>
    requires i < |weights|
  {
    set n: nat | n < Prefix(weights, |weights|) && DrawIndex(weights, n) == i
  }

  /** Of the total weight's draws exactly weight_i select target i. */
  lemma DrawsAreProportional(weights: seq<int>, i: nat)
    requires i < |weights| && forall j :: 0 <= j < |weights| ==> weights[j] > 0
    ensures |DrawsOf(weights, i)| == weights[i]
  {
    var lo, hi := Prefix(weights, i), Prefix(weights, i + 1);
    PrefixGrows(weights, 0, i);
    PrefixGrows(weights, i + 1, |weights|);
    IntervalIs(lo, hi);
    forall n
      ensures n in DrawsOf(weights, i) <==> n in Interval(lo, hi)
    {
      if 0 <= n < Prefix(weights, |weights|) {
        ModUnique(n, Prefix(weights, |weights|), 0, n);
        DrawLands(weights, 0, n);
        var d := DrawFrom(weights, 0, n);
        if d < i { PrefixGrows(weights, d + 1, i); }
        if d > i { PrefixGrows(weights, i + 1, d); }
      }
    }
    assert DrawsOf(weights, i) == Interval(lo, hi);
  }

  /** Those of the first n targets that are not skipped at `now`, in order. */
  ghost function Healthy(targets: seq<Target>, n: nat, now: int): (healthy: seq<Target>)
    requires n <= |targets|
    reads targets
    ensures |healthy| <= n
    ensures forall t :: t in healthy ==> t in targets && !t.IsSkipped(now)
    ensures |healthy| == n ==> healthy == targets[..n]
  {
    if n == 0 then []
    else Healthy(targets, n - 1, now) + if targets[n - 1].IsSkipped(now) then [] else [targets[n - 1]]
  }

  /** Where in the pool they are. */
  ghost function HealthyPlaces(targets: seq<Target>, n: nat, now: int): (at: seq<nat>)
    requires n <= |targets|
    reads targets
    ensures forall k :: 0 <= k < |at| ==> at[k] < n
    ensures forall k, l :: 0 <= k < l < |at| ==> at[k] < at[l]
  {
    if n == 0 then []
    else HealthyPlaces(targets, n - 1, now) + if targets[n - 1].IsSkipped(now) then [] else [n - 1]
  }

  lemma {:induction false} PlaceIsHealthy(targets: seq<Target>, n: nat, now: int, m: nat)
    requires n <= |targets|
    ensures m in HealthyPlaces(targets, n, now) <==> m < n && !targets[m].IsSkipped(now)
  {
    hide UpstreamHealth.Skipped;
    if n > 0 {
      PlaceIsHealthy(targets, n - 1, now, m);
    }
  }

  lemma {:induction false} HealthyAtPlaces(targets: seq<Target>, n: nat, now: int)
    requires n <= |targets|
    ensures |HealthyPlaces(targets, n, now)| == |Healthy(targets, n, now)|
    ensures forall k :: 0 <= k < |Healthy(targets, n, now)| ==>
              Healthy(targets, n, now)[k] == targets[HealthyPlaces(targets, n, now)[k]]
  {
    hide UpstreamHealth.Skipped;
    if n > 0 {
      HealthyAtPlaces(targets, n - 1, now);
    }
  }

  /** The healthy targets are all that are not skipped, in the order of the pool. */
  lemma {:induction false} HealthyInOrder(targets: seq<Target>, n: nat, now: int) returns (at: seq<nat>)
    requires n <= |targets|
    ensures |at| == |Healthy(targets, n, now)|
    ensures forall k :: 0 <= k < |at| ==> at[k] < n && Healthy(targets, n, now)[k] == targets[at[k]]
    ensures forall k, l :: 0 <= k < l < |at| ==> at[k] < at[l]
    ensures forall m: nat :: m in at <==> m < n && !targets[m].IsSkipped(now)
  {
    hide Healthy, HealthyPlaces, UpstreamHealth.Skipped;
    at := HealthyPlaces(targets, n, now);
    HealthyAtPlaces(targets, n, now);
    forall m: nat
      ensures m in at <==> m < n && !targets[m].IsSkipped(now)
    {
      PlaceIsHealthy(targets, n, now, m);
    }
  }

  /** Each of these targets was picked as often as the counter passed it, going round from `start`. */
  ghost predicate Shared(healthy: seq<Target>, picked: seq<Target>, cycle: seq<nat>, start: nat)
    requires cycle != []
  {
    forall i :: 0 <= i < |healthy| ==> multiset(picked)[healthy[i]] == Picks(cycle, start, |picked|, i)
  }

  lemma NonePicked(healthy: seq<Target>, cycle: seq<nat>, start: nat)
    requires cycle != []
    ensures Shared(healthy, [], cycle, start)
  {
  }

  lemma CountsPick(cycle: seq<nat>, healthy: seq<Target>, start: nat, picked: seq<Target>, target: Target)
    requires cycle != [] && Distinct(healthy) && forall j :: 0 <= j < |cycle| ==> cycle[j] < |healthy|
    requires target == healthy[cycle[(start + |picked|) % |cycle|]]
    requires Shared(healthy, picked, cycle, start)
    ensures Shared(healthy, picked + [target], cycle, start)
  {
  }

  function WeightsOf(targets: seq<Target>): seq<int> {
    seq(|targets|, i requires 0 <= i < |targets| => targets[i].weight)
  }

  class Pool {
    const strategy: Strategy
    const targets: seq<Target>
    const weightedPlan: seq<nat>
    var rrCounter: nat

    /** What newUpstreamPool builds: at least one target, positive weights, the plan they give. */
    predicate Valid() {
      && targets != []
      && (forall i :: 0 <= i < |targets| ==> targets[i].weight > 0)
      && weightedPlan == (if strategy.Weighted? then PlanOf(WeightsOf(targets)) else [])
    }

    constructor (strategy: Strategy, targets: seq<Target>)
      requires targets != [] && forall i :: 0 <= i < |targets| ==> targets[i].weight > 0
      ensures Valid() && this.strategy == strategy && this.targets == targets && rrCounter == 0
    {
      var plan := [];
      if strategy.Weighted? {
        plan := BuildWeightedPlan(WeightsOf(targets));
      }
      this.strategy := strategy;
      this.targets := targets;
      weightedPlan := plan;
      rrCounter := 0;
    }

    ghost function HealthyNow(now: int): seq<Target>
      reads targets
    {
      Healthy(targets, |targets|, now)
    }

    method HealthyTargets(now: int) returns (healthy: seq<Target>)
      ensures healthy == HealthyNow(now)
    {
      var allHealthy, i := true, 0;
      while i < |targets| && allHealthy
        invariant 0 <= i <= |targets|
        invariant allHealthy ==> |Healthy(targets, i, now)| == i
        decreases |targets| - i, allHealthy
      {
        if targets[i].IsSkipped(now) {
          allHealthy := false;
        } else {
          i := i + 1;
        }
      }
      if allHealthy {
        return targets;
      }
      healthy := [];
      for j := 0 to |targets|
        invariant healthy == Healthy(targets, j, now)
      {
        if !targets[j].IsSkipped(now) {
          healthy := healthy + [targets[j]];
        }
      }
    }

    /** `hash` is the client address's hash; `draw` stands for the random source, which the code asks
        for a number below a bound. A skipped target is returned only when it is the pool's only one. */
    method Pick(hash: nat, draw: nat, now: int) returns (target: Target?)
      requires Valid()
      modifies this`rrCounter
      ensures HealthyNow(now) == [] ==>
                target == (if |targets| == 1 then targets[0] else null) && rrCounter == old(rrCounter)
      ensures HealthyNow(now) != [] ==>
                target != null && Chosen(HealthyNow(now), target, hash, draw, old(rrCounter), rrCounter)
      ensures target != null && target.IsSkipped(now) ==> |targets| == 1
    {
      hide PlanOf, DrawIndex, UpstreamHealth.Skipped;
      var healthy := HealthyTargets(now);
      if |healthy| == 0 {
        if |targets| == 1 {
          return targets[0];
        }
        return null;
      }
      match strategy
      case Random =>
        target := healthy[draw % |healthy|];
      case IpHash =>
        target := healthy[hash % |healthy|];
      case LeastConn =>
        target := LeastActive(healthy);
      case Weighted =>
        target := WeightedPick(healthy, draw);
      case RoundRobin =>
        rrCounter := rrCounter + 1;
        target := healthy[(rrCounter - 1) % |healthy|];
    }

    /** The order in which the counter goes round, while these targets are the healthy ones. */
    function Cycle(healthy: seq<Target>): seq<nat> {
      if strategy.Weighted? then weightedPlan else Indices(|healthy|)
    }

    method PickNext(hash: nat, draw: nat, now: int, ghost healthy: seq<Target>) returns (target: Target)
      requires Valid() && healthy != [] && HealthyNow(now) == healthy
      requires strategy.RoundRobin? || (strategy.Weighted? && healthy == targets)
      modifies this`rrCounter
      ensures rrCounter == old(rrCounter) + 1 && Cycle(healthy) != []
      ensures var cycle := Cycle(healthy);
              && cycle[old(rrCounter) % |cycle|] < |healthy|
              && target == healthy[cycle[old(rrCounter) % |cycle|]]
    {
      hide Healthy, PlanOf, Indices, DrawIndex;
      CycleIndices(healthy);
      target := Pick(hash, draw, now);
    }

    /** Picks one after the other, at these times, while the same targets stay healthy: each of them is
        picked as often as the counter's way round the cycle passes it; in whole rounds, equally
        often under round robin and min(weight, 20) times under weighted. */
    method PickEach(hashes: seq<nat>, draws: seq<nat>, times: seq<int>, ghost healthy: seq<Target>)
      returns (picked: seq<Target>)
      requires Valid() && |hashes| == |draws| == |times| && healthy != [] && Distinct(healthy)
      requires forall t :: t in times ==> HealthyNow(t) == healthy
      requires strategy.RoundRobin? || (strategy.Weighted? && healthy == targets)
      modifies this`rrCounter
      ensures |picked| == |times| && rrCounter == old(rrCounter) + |times| && Cycle(healthy) != []
      ensures Shared(healthy, picked, Cycle(healthy), old(rrCounter))
      ensures strategy.RoundRobin? && |times| % |healthy| == 0 ==>
                forall i :: 0 <= i < |healthy| ==> multiset(picked)[healthy[i]] == |times| / |healthy|
      ensures strategy.Weighted? && |times| == |weightedPlan| ==>
                forall i :: 0 <= i < |healthy| ==> multiset(picked)[healthy[i]] == Min(healthy[i].weight, 20)
    {
      hide Healthy, PlanOf, Indices, Picks, Pool.Cycle;
      ghost var start, cycle := rrCounter, Cycle(healthy);
      CycleIndices(healthy);
      picked := [];
      NonePicked(healthy, cycle, start);
      for n := 0 to |times|
        invariant rrCounter == start + n && |picked| == n
        invariant Shared(healthy, picked, cycle, start)
      {
        assert HealthyNow(times[n]) == healthy;
        var target := PickNext(hashes[n], draws[n], times[n], healthy);
        CountsPick(cycle, healthy, start, picked, target);
        picked := picked + [target];
      }
      WholeRounds(healthy, start, |times|);
    }

    lemma CycleIndices(healthy: seq<Target>)
      requires Valid() && healthy != [] && (strategy.Weighted? ==> healthy == targets)
      ensures Cycle(healthy) != [] && forall j :: 0 <= j < |Cycle(healthy)| ==> Cycle(healthy)[j] < |healthy|
      ensures !strategy.Weighted? ==> Cycle(healthy) == seq(|healthy|, j => j)
    {
      if strategy.Weighted? {
        PlanSharesTurns(WeightsOf(targets), 0);
      } else {
        IndicesAre(|healthy|, 0);
      }
    }

    lemma WholeRounds(healthy: seq<Target>, start: nat, n: nat)
      requires Valid() && healthy != [] && Cycle(healthy) != []
      requires strategy.RoundRobin? || (strategy.Weighted? && healthy == targets)
      ensures strategy.RoundRobin? && n % |healthy| == 0 ==>
                forall i :: 0 <= i < |healthy| ==> Picks(Cycle(healthy), start, n, i) == n / |healthy|
      ensures strategy.Weighted? && n == |weightedPlan| ==>
                forall i :: 0 <= i < |healthy| ==> Picks(Cycle(healthy), start, n, i) == Min(healthy[i].weight, 20)
    {
      forall i | 0 <= i < |healthy|
        ensures strategy.RoundRobin? && n % |healthy| == 0 ==> Picks(Cycle(healthy), start, n, i) == n / |healthy|
        ensures strategy.Weighted? && n == |weightedPlan| ==> Picks(Cycle(healthy), start, n, i) == Min(healthy[i].weight, 20)
      {
        if strategy.RoundRobin? && n % |healthy| == 0 {
          assert n == n / |healthy| * |healthy|;
          RoundRobinFairness(|healthy|, start, n / |healthy|, i);
        } else if strategy.Weighted? {
          WeightedFairness(WeightsOf(targets), start, i);
        }
      }
    }

    /** The choice each strategy makes among the healthy targets, and what it does to the counter. */
    ghost predicate Chosen(healthy: seq<Target>, target: Target, hash: nat, draw: nat, was: nat, is': nat)
      requires healthy != []
      reads healthy
    {
      && target in healthy
      && (strategy.RoundRobin? ==> target == healthy[was % |healthy|] && is' == was + 1)
      && (strategy.Weighted? && |healthy| == |targets| ==> PlannedTarget(target, was) && is' == was + 1)
      && (strategy.Weighted? && |healthy| != |targets| ==>
            target == healthy[DrawIndex(WeightsOf(healthy), draw)] && is' == was)
      && (strategy.IpHash? ==> target == healthy[hash % |healthy|] && is' == was)
      && (strategy.Random? ==> target == healthy[draw % |healthy|] && is' == was)
      && (strategy.LeastConn? ==> FirstLeast(healthy, target) && is' == was)
    }

    /** The first of the healthy targets with the fewest requests in flight. */
    ghost predicate FirstLeast(healthy: seq<Target>, target: Target)
      reads healthy
    {
      exists i :: 0 <= i < |healthy| && healthy[i] == target
        && forall j :: 0 <= j < |healthy| ==>
             if j < i then target.active < healthy[j].active else target.active <= healthy[j].active
    }

    ghost predicate PlannedTarget(target: Target, counter: nat) {
      && |weightedPlan| > 0
      && weightedPlan[counter % |weightedPlan|] < |targets|
      && target == targets[weightedPlan[counter % |weightedPlan|]]
    }

    method LeastActive(healthy: seq<Target>) returns (selected: Target)
      requires healthy != []
      ensures selected in healthy && FirstLeast(healthy, selected)
    {
      selected := healthy[0];
      var minActive := selected.active;
      ghost var at := 0;
      for i := 1 to |healthy|
        invariant 0 <= at < i && healthy[at] == selected && minActive == selected.active
        invariant forall j :: 0 <= j < i ==>
                    if j < at then minActive < healthy[j].active else minActive <= healthy[j].active
      {
        if healthy[i].active < minActive {
          minActive := healthy[i].active;
          selected, at := healthy[i], i;
        }
      }
    }

    method WeightedPick(healthy: seq<Target>, draw: nat) returns (target: Target)
      requires Valid() && strategy.Weighted? && healthy != []
      requires |healthy| == |targets| ==> healthy == targets
      modifies this`rrCounter
      ensures target in healthy
      ensures if |healthy| == |targets| then PlannedTarget(target, old(rrCounter)) && rrCounter == old(rrCounter) + 1
              else rrCounter == old(rrCounter) && target == healthy[DrawIndex(WeightsOf(healthy), draw)]
    {
      PlanSharesTurns(WeightsOf(targets), 0);
      if |healthy| == |targets| && |weightedPlan| > 0 {
        rrCounter := rrCounter + 1;
        return targets[weightedPlan[(rrCounter - 1) % |weightedPlan|]];
      }
      ghost var weights := WeightsOf(healthy);
      var totalWeight := 0;
      for i := 0 to |healthy|
        invariant totalWeight == Prefix(weights, i)
      {
        totalWeight := totalWeight + healthy[i].weight;
      }
      if totalWeight <= 0 {
        return healthy[draw % |healthy|];
      }
      var n, i := draw % totalWeight, 0;
      while i < |healthy|
        invariant 0 <= i <= |healthy|
        invariant i < |healthy| ==> DrawFrom(weights, i, n) == DrawIndex(weights, draw)
        invariant i == |healthy| ==> DrawIndex(weights, draw) == i - 1
      {
        if n < healthy[i].weight {
          return healthy[i];
        }
        n := n - healthy[i].weight;
        i := i + 1;
      }
      return healthy[|healthy| - 1];
    }
  }
}
