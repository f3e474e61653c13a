/** A failure counter and the hold it sets when marks overlap: the steps are the atomic operations on the two. */
module OverlappingMarks {
  import opened Common
  import opened UpstreamHealth

  /** How many failures trip, and for how long. */
  datatype Rule = Rule(threshold: int, period: int)

  /** A failure mark adds; if that reached the threshold it stores the hold and then zero in the counter. A
      success mark stores zero in the counter and then in the hold. `now` is the time a failure mark will
      have read by the time it stores the hold. */
  datatype Step = Add(id: int, now: int) | Hold(id: int) | Reset(id: int) | Clear(id: int) | Lift(id: int)

  /** What a mark under way does next. */
  datatype Due = ToHold(now: int) | ToReset(now: int) | ToLift

  datatype Writer = Nobody | Trip(now: int) | Cleared

  /** The counter, the hold and the marks under way; stored and cleared are records for the proof: whose
      hold was stored last, and who stored zero in the counter last. */
  datatype Mechanism = Mechanism(count: int, hold: int, due: map<int, Due>, stored: Writer, cleared: Writer)

  const REST := Mechanism(0, 0, map[], Nobody, Nobody)

  /** What a mark stores in the hold. */
  function Writes(r: Rule, w: Writer): int {
    if w.Trip? then w.now + r.period else 0
  }

  predicate Adds(s: Mechanism, step: Step) {
    step.Add? && step.id !in s.due
  }

  predicate Clears(s: Mechanism, step: Step) {
    step.Clear? && step.id !in s.due
  }

  predicate Resets(s: Mechanism, step: Step) {
    step.Reset? && step.id in s.due && s.due[step.id].ToReset?
  }

  /** A step that cannot happen now changes nothing. */
  function Next(r: Rule, s: Mechanism, step: Step): Mechanism {
    match step
    case Add(id, now) =>
      if !Adds(s, step) then s
      else s.(count := s.count + 1, due := if s.count + 1 >= r.threshold then s.due[id := ToHold(now)] else s.due)
    case Hold(id) =>
      if id in s.due && s.due[id].ToHold? then
        var now := s.due[id].now;
        s.(hold := now + r.period, due := s.due[id := ToReset(now)], stored := Trip(now))
      else s
    case Reset(id) =>
      if Resets(s, step) then s.(count := 0, due := s.due - {id}, cleared := Trip(s.due[id].now)) else s
    case Clear(id) =>
      if Clears(s, step) then s.(count := 0, due := s.due[id := ToLift], cleared := Cleared) else s
    case Lift(id) =>
      if id in s.due && s.due[id].ToLift? then s.(hold := 0, due := s.due - {id}, stored := Cleared) else s
  }

  function Run(r: Rule, steps: seq<Step>, n: nat): Mechanism
    requires n <= |steps|
  {
    if n == 0 then REST else Next(r, Run(r, steps, n - 1), steps[n - 1])
  }

  /** Failures since the last success. */
  function Failures(r: Rule, steps: seq<Step>, n: nat): nat
    requires n <= |steps|
  {
    if n == 0 || Clears(Run(r, steps, n - 1), steps[n - 1]) then 0
    else Failures(r, steps, n - 1) + if Adds(Run(r, steps, n - 1), steps[n - 1]) then 1 else 0
  }

  /** What resets have found in the counter, and thrown away, since the last success. */
  function Discarded(r: Rule, steps: seq<Step>, n: nat): int
    requires n <= |steps|
  {
    if n == 0 || Clears(Run(r, steps, n - 1), steps[n - 1]) then 0
    else
      var s := Run(r, steps, n - 1);
      Discarded(r, steps, n - 1) + if Resets(s, steps[n - 1]) then s.count else 0
  }

  /** In every interleaving the counter is the failures since the last success less what was discarded. */
  lemma {:induction false} CountIsConserved(r: Rule, steps: seq<Step>, n: nat)
    requires n <= |steps|
    ensures Run(r, steps, n).count == Failures(r, steps, n) - Discarded(r, steps, n)
    ensures Run(r, steps, n).count >= 0
  {
    if n > 0 {
      CountIsConserved(r, steps, n - 1);
    }
  }

  /** So the counter is the failures modulo the threshold exactly if it is below the threshold and what
      was discarded is a whole number of thresholds. */
  lemma {:induction false} ModuloLawExactly(r: Rule, steps: seq<Step>, n: nat)
    requires r.threshold > 0 && n <= |steps|
    ensures Run(r, steps, n).count == Failures(r, steps, n) % r.threshold
            <==> Run(r, steps, n).count < r.threshold && Discarded(r, steps, n) % r.threshold == 0
  {
    CountIsConserved(r, steps, n);
    RemainderIs(Run(r, steps, n).count, Discarded(r, steps, n), r.threshold);
  }

  lemma Quotient(x: int, k: int)
    requires k > 0
    ensures x == (x / k) * k + x % k && 0 <= x % k < k
  {
  }

  lemma RemainderIs(count: int, lost: int, k: int)
    requires k > 0 && count >= 0
    ensures count == (count + lost) % k <==> count < k && lost % k == 0
  {
    Quotient(lost, k);
    Quotient(count + lost, k);
    if count < k && lost % k == 0 {
      ModUnique(count + lost, k, lost / k, count);
    }
    if count == (count + lost) % k {
      ModUnique(lost, k, (count + lost) / k, 0);
    }
  }

  // ---------- when nothing is lost ----------

  /** The marks under way that will reset the counter. */
  ghost function Pending(s: Mechanism): set<int> {
    set id | id in s.due && !s.due[id].ToLift?
  }

  /** A reset finds other than the threshold, so failures are lost or counted for two trips. */
  predicate Loses(r: Rule, steps: seq<Step>, i: nat)
    requires i < |steps|
  {
    Resets(Run(r, steps, i), steps[i]) && Run(r, steps, i).count != r.threshold
  }

  /** Another mark adds to the counter, or a success clears it, between an addition that reaches the
      threshold and the reset that belongs to it. */
  ghost predicate Disturbs(r: Rule, steps: seq<Step>, i: nat)
    requires i < |steps|
  {
    var s := Run(r, steps, i);
    (Adds(s, steps[i]) || Clears(s, steps[i])) && Pending(s) != {}
  }

  ghost predicate Undisturbed(r: Rule, steps: seq<Step>, n: nat)
    requires n <= |steps|
  {
    forall i :: 0 <= i < n ==> !Disturbs(r, steps, i)
  }

  ghost predicate Calm(r: Rule, s: Mechanism) {
    0 <= s.count &&
    if s.count < r.threshold then Pending(s) == {}
    else s.count == r.threshold && exists id :: id in s.due && Pending(s) == {id}
  }

  lemma PendingAfter(r: Rule, s: Mechanism, step: Step)
    ensures Pending(Next(r, s, step)) ==
            if Adds(s, step) && s.count + 1 >= r.threshold then Pending(s) + {step.id}
            else if Resets(s, step) then Pending(s) - {step.id} else Pending(s)
  {
  }

  lemma {:induction false} UndisturbedIsCalm(r: Rule, steps: seq<Step>, n: nat)
    requires r.threshold > 0 && n <= |steps| && Undisturbed(r, steps, n)
    ensures Calm(r, Run(r, steps, n))
    ensures forall i :: 0 <= i < n ==> !Loses(r, steps, i)
  {
    if n > 0 {
      UndisturbedIsCalm(r, steps, n - 1);
      var s, step := Run(r, steps, n - 1), steps[n - 1];
      assert !Disturbs(r, steps, n - 1);
      StaysCalm(r, s, step);
    }
  }

  lemma StaysCalm(r: Rule, s: Mechanism, step: Step)
    requires r.threshold > 0 && Calm(r, s)
    requires Adds(s, step) || Clears(s, step) ==> Pending(s) == {}
    ensures Calm(r, Next(r, s, step)) && (Resets(s, step) ==> s.count == r.threshold)
  {
    PendingAfter(r, s, step);
    if Resets(s, step) {
      assert step.id in Pending(s);
    }
    if Adds(s, step) && s.count + 1 >= r.threshold {
      assert Pending(Next(r, s, step)) == {step.id};
    }
  }

  /** Resets to come beyond the one the counter has earned. */
  ghost function Surplus(r: Rule, s: Mechanism): int {
    |Pending(s)| - if s.count >= r.threshold then 1 else 0
  }

  /** A step that loses nothing never lowers the surplus, and one that disturbs raises it from nothing. */
  lemma SurplusNeverFalls(r: Rule, s: Mechanism, step: Step)
    requires r.threshold > 0 && s.count >= 0 && Surplus(r, s) >= 0
    requires Resets(s, step) ==> s.count == r.threshold
    ensures Surplus(r, Next(r, s, step)) >= Surplus(r, s)
    ensures (Adds(s, step) || Clears(s, step)) && Pending(s) != {} ==> Surplus(r, Next(r, s, step)) > 0
  {
    PendingAfter(r, s, step);
    if Adds(s, step) {
      assert step.id !in Pending(s);
    }
    if Resets(s, step) {
      assert step.id in Pending(s);
      assert |Pending(s) - {step.id}| == |Pending(s)| - 1;
    }
    if Pending(s) != {} {
      assert |Pending(s)| >= 1;
    }
  }

  lemma {:induction false} SurplusGrows(r: Rule, steps: seq<Step>, m: nat, n: nat)
    requires r.threshold > 0 && m <= n <= |steps| && forall i :: 0 <= i < n ==> !Loses(r, steps, i)
    ensures 0 <= Surplus(r, Run(r, steps, m)) <= Surplus(r, Run(r, steps, n))
    decreases n
  {
    if n > 0 {
      CountIsConserved(r, steps, n - 1);
      SurplusGrows(r, steps, if m < n then m else n - 1, n - 1);
      assert !Loses(r, steps, n - 1);
      SurplusNeverFalls(r, Run(r, steps, n - 1), steps[n - 1]);
    }
  }

  /** A schedule in which no reset is outstanding loses no failure exactly if nothing came between an
      addition that reached the threshold and its reset. */
  lemma NothingIsLostExactly(r: Rule, steps: seq<Step>)
    requires r.threshold > 0 && Pending(Run(r, steps, |steps|)) == {}
    ensures (forall i :: 0 <= i < |steps| ==> !Loses(r, steps, i)) <==> Undisturbed(r, steps, |steps|)
  {
    if Undisturbed(r, steps, |steps|) {
      UndisturbedIsCalm(r, steps, |steps|);
    }
    if forall i :: 0 <= i < |steps| ==> !Loses(r, steps, i) {
      forall i | 0 <= i < |steps|
        ensures !Disturbs(r, steps, i)
      {
        SurplusGrows(r, steps, 0, i);
        CountIsConserved(r, steps, i);
        assert !Loses(r, steps, i);
        SurplusNeverFalls(r, Run(r, steps, i), steps[i]);
        SurplusGrows(r, steps, i + 1, |steps|);
      }
    }
  }

  function TripsSince(r: Rule, steps: seq<Step>, n: nat): nat
    requires n <= |steps|
  {
    if n == 0 || Clears(Run(r, steps, n - 1), steps[n - 1]) then 0
    else TripsSince(r, steps, n - 1) + if Resets(Run(r, steps, n - 1), steps[n - 1]) then 1 else 0
  }

  lemma {:induction false} DiscardedIsTrips(r: Rule, steps: seq<Step>, n: nat)
    requires n <= |steps| && forall i :: 0 <= i < n ==> !Loses(r, steps, i)
    ensures Discarded(r, steps, n) == TripsSince(r, steps, n) * r.threshold
  {
    if n > 0 {
      var k := r.threshold;
      DiscardedIsTrips(r, steps, n - 1);
      assert !Loses(r, steps, n - 1);
      assert (TripsSince(r, steps, n - 1) + 1) * k == TripsSince(r, steps, n - 1) * k + k;
    }
  }

  /** While nothing disturbs, the counter is, whenever no reset is due, the failures since the last
      success modulo the threshold, as if every mark were one step. */
  lemma {:induction false} UndisturbedModuloLaw(r: Rule, steps: seq<Step>, n: nat)
    requires r.threshold > 0 && n <= |steps| && Undisturbed(r, steps, n) && Pending(Run(r, steps, n)) == {}
    ensures Run(r, steps, n).count == Failures(r, steps, n) % r.threshold
  {
    UndisturbedIsCalm(r, steps, n);
    DiscardedIsTrips(r, steps, n);
    ModUnique(Discarded(r, steps, n), r.threshold, TripsSince(r, steps, n), 0);
    ModuloLawExactly(r, steps, n);
  }

  // ---------- the hold ----------

  /** A counter and its hold. */
  datatype Pair = Pair(count: int, until: int)

  /** A failure mark done in one step. */
  function Tripped(r: Rule, p: Pair, now: int): Pair {
    if p.count + 1 >= r.threshold then Pair(0, now + r.period) else p.(count := p.count + 1)
  }

  /** The same marks, one step each, in the order in which they first touch the counter. */
  function InOrder(r: Rule, steps: seq<Step>, n: nat): Pair
    requires n <= |steps|
  {
    if n == 0 then Pair(0, 0)
    else
      var p, s, step := InOrder(r, steps, n - 1), Run(r, steps, n - 1), steps[n - 1];
      if Adds(s, step) then Tripped(r, p, step.now) else if Clears(s, step) then Pair(0, 0) else p
  }

  lemma {:induction false} HoldIsStored(r: Rule, steps: seq<Step>, n: nat)
    requires n <= |steps|
    ensures Run(r, steps, n).hold == Writes(r, Run(r, steps, n).stored)
  {
    if n > 0 {
      HoldIsStored(r, steps, n - 1);
    }
  }

  /** While no reset is due: only a success can have stored a hold after the last trip, and the last
      success has stored its own or is about to. */
  ghost predicate Followed(s: Mechanism) {
    match s.cleared
    case Nobody => s.stored.Nobody? && s.due == map[]
    case Trip(now) => s.stored.Cleared? || s.stored == Trip(now)
    case Cleared => s.stored.Cleared? || exists id :: id in s.due && s.due[id].ToLift?
  }

  /** The mark about to reset has tripped in order; its hold is stored, or overtaken by a success. */
  ghost predicate Resetting(r: Rule, s: Mechanism, p: Pair, id: int) {
    id in s.due && Pending(s) == {id} && s.due[id].now + r.period == p.until
    && (s.due[id].ToReset? ==> s.stored.Cleared? || s.stored == Trip(s.due[id].now))
  }

  ghost predicate Tracks(r: Rule, s: Mechanism, p: Pair) {
    if Pending(s) == {} then p == Pair(s.count, Writes(r, s.cleared)) && Followed(s)
    else p.count == 0 && exists id :: Resetting(r, s, p, id)
  }

  lemma StepTracks(r: Rule, s: Mechanism, step: Step, p: Pair)
    requires r.threshold > 0 && Calm(r, s) && Tracks(r, s, p)
    requires Adds(s, step) || Clears(s, step) ==> Pending(s) == {}
    ensures var p' := if Adds(s, step) then Tripped(r, p, step.now) else if Clears(s, step) then Pair(0, 0) else p;
            Tracks(r, Next(r, s, step), p')
  {
    PendingAfter(r, s, step);
    var s' := Next(r, s, step);
    if Pending(s) == {} {
      if Adds(s, step) && s.count + 1 >= r.threshold {
        assert Resetting(r, s', Tripped(r, p, step.now), step.id);
      } else if Clears(s, step) {
        assert s'.due[step.id].ToLift?;
      } else if s' != s && !Adds(s, step) {
        assert step.id in s.due && step.id !in Pending(s);
      }
    } else {
      var id :| Resetting(r, s, p, id);
      assert id in Pending(s);
      if Resets(s, step) {
        assert step.id in Pending(s);
      } else {
        StillResetting(r, s, step, p, id);
      }
    }
  }

  lemma StillResetting(r: Rule, s: Mechanism, step: Step, p: Pair, id: int)
    requires Resetting(r, s, p, id) && !Resets(s, step) && !Adds(s, step) && !Clears(s, step)
    ensures Resetting(r, Next(r, s, step), p, id)
  {
    PendingAfter(r, s, step);
    assert id in Pending(s);
    if step.Hold? && step.id in s.due && s.due[step.id].ToHold? {
      assert step.id in Pending(s);
    }
  }

  lemma {:induction false} UndisturbedTracks(r: Rule, steps: seq<Step>, n: nat)
    requires r.threshold > 0 && n <= |steps| && Undisturbed(r, steps, n)
    ensures Tracks(r, Run(r, steps, n), InOrder(r, steps, n))
  {
    if n == 0 {
    } else {
      UndisturbedTracks(r, steps, n - 1);
      UndisturbedIsCalm(r, steps, n - 1);
      assert !Disturbs(r, steps, n - 1);
      StepTracks(r, Run(r, steps, n - 1), steps[n - 1], InOrder(r, steps, n - 1));
    }
  }

  /** A success that cleared the counter before a trip stores the hold after it, and the hold is the worse
      for it. */
  predicate DropsHold(r: Rule, s: Mechanism) {
    s.stored.Cleared? && s.cleared.Trip? && Writes(r, s.cleared) != 0
  }

  /** Undisturbed marks that have all ended leave the counter of one-step marks in counter order. They
      leave their hold exactly if the last hold stored is what the mark that cleared the counter last
      stores; that fails exactly if a success that came before the last trip stored its zero after it,
      and then there is no hold at all. */
  lemma {:induction false} SettledInOrderExactly(r: Rule, steps: seq<Step>, n: nat)
    requires r.threshold > 0 && n <= |steps| && Undisturbed(r, steps, n) && Run(r, steps, n).due == map[]
    ensures var s, p := Run(r, steps, n), InOrder(r, steps, n);
            && s.count == p.count && p.until == Writes(r, s.cleared)
            && (s.hold == p.until <==> Writes(r, s.stored) == Writes(r, s.cleared))
            && (s.hold == p.until <==> !DropsHold(r, s))
            && (DropsHold(r, s) ==> s.hold == 0)
  {
    UndisturbedTracks(r, steps, n);
    HoldIsStored(r, steps, n);
    assert Pending(Run(r, steps, n)) == {};
  }

  // ---------- marks that do go wrong ----------

  lemma {:induction false} RunPrefix(r: Rule, steps: seq<Step>, more: seq<Step>, n: nat)
    requires n <= |steps|
    ensures Run(r, steps + more, n) == Run(r, steps, n)
    ensures Failures(r, steps + more, n) == Failures(r, steps, n)
    ensures InOrder(r, steps + more, n) == InOrder(r, steps, n)
  {
    if n > 0 {
      RunPrefix(r, steps, more, n - 1);
      assert (steps + more)[n - 1] == steps[n - 1];
    }
  }

  /** What one more step makes of a schedule. */
  lemma RunOneMore(r: Rule, steps: seq<Step>, step: Step)
    ensures var s, p, all, m := Run(r, steps, |steps|), InOrder(r, steps, |steps|), steps + [step], |steps| + 1;
            && Run(r, all, m) == Next(r, s, step)
            && Failures(r, all, m) == (if Clears(s, step) then 0 else Failures(r, steps, |steps|) + if Adds(s, step) then 1 else 0)
            && InOrder(r, all, m) == (if Adds(s, step) then Tripped(r, p, step.now) else if Clears(s, step) then Pair(0, 0) else p)
  {
    RunPrefix(r, steps, [step], |steps|);
    assert (steps + [step])[|steps|] == step;
  }

  lemma NothingYet(r: Rule)
    ensures Run(r, [], 0) == REST && Failures(r, [], 0) == 0 && InOrder(r, [], 0) == Pair(0, 0)
  {
  }

  /** A schedule, then marks 1, ..., n that do not trip. */
  function Then(before: seq<Step>, n: nat): seq<Step> {
    if n == 0 then before else Then(before, n - 1) + [Add(n, 0)]
  }

  lemma {:induction false} ThenCounts(r: Rule, before: seq<Step>, n: nat)
    requires n < r.threshold && forall id :: 0 < id <= n ==> id !in Run(r, before, |before|).due
    requires Run(r, before, |before|).count == 0 && InOrder(r, before, |before|).count == 0
    requires Failures(r, before, |before|) == 0
    ensures var s, p, all, m := Run(r, before, |before|), InOrder(r, before, |before|), Then(before, n), |before| + n;
            && |all| == m && Run(r, all, m) == s.(count := n) && InOrder(r, all, m) == p.(count := n)
            && Failures(r, all, m) == n
  {
    if n > 0 {
      ThenCounts(r, before, n - 1);
      RunOneMore(r, Then(before, n - 1), Add(n, 0));
    }
  }

  /** The marks 1, ..., k - 1, and then two that overlap. */
  function Overlap(k: nat): seq<Step>
    requires k > 0
  {
    Then([], k - 1) + [Add(k, 0)] + [Add(k + 1, 0)] + [Hold(k)] + [Reset(k)] + [Hold(k + 1)] + [Reset(k + 1)]
  }

  /** For every threshold above one there is such a schedule: k + 1 failures leave a counter of zero. */
  lemma {:induction false} OverlappingMarksLoseAFailure(r: Rule, k: nat)
    requires r.threshold == k > 1
    ensures var steps := Overlap(k); var n := |steps|;
            && Run(r, steps, n).count == 0 && Run(r, steps, n).due == map[]
            && Failures(r, steps, n) == k + 1 && (k + 1) % k == 1
  {
    hide Run, Failures, InOrder;
    NothingYet(r);
    ThenCounts(r, [], k - 1);
    var s1 := Then([], k - 1);
    RunOneMore(r, s1, Add(k, 0));
    var s2 := s1 + [Add(k, 0)];
    RunOneMore(r, s2, Add(k + 1, 0));
    var s3 := s2 + [Add(k + 1, 0)];
    RunOneMore(r, s3, Hold(k));
    var s4 := s3 + [Hold(k)];
    RunOneMore(r, s4, Reset(k));
    var s5 := s4 + [Reset(k)];
    RunOneMore(r, s5, Hold(k + 1));
    var s6 := s5 + [Hold(k + 1)];
    RunOneMore(r, s6, Reset(k + 1));
    ModUnique(k + 1, k, 1, 1);
  }

  lemma UndisturbedOneMore(r: Rule, steps: seq<Step>, step: Step)
    requires Undisturbed(r, steps, |steps|)
    requires var s := Run(r, steps, |steps|); Adds(s, step) || Clears(s, step) ==> Pending(s) == {}
    ensures Undisturbed(r, steps + [step], |steps| + 1)
  {
    hide Run;
    forall i | 0 <= i <= |steps|
      ensures !Disturbs(r, steps + [step], i)
    {
      RunPrefix(r, steps, [step], i);
      assert i < |steps| ==> !Disturbs(r, steps, i);
    }
  }

  lemma {:induction false} ThenUndisturbed(r: Rule, before: seq<Step>, n: nat)
    requires n < r.threshold && forall id :: 0 < id <= n ==> id !in Run(r, before, |before|).due
    requires Run(r, before, |before|).count == 0 && InOrder(r, before, |before|).count == 0
    requires Failures(r, before, |before|) == 0
    requires Undisturbed(r, before, |before|) && Pending(Run(r, before, |before|)) == {}
    ensures Undisturbed(r, Then(before, n), |Then(before, n)|)
  {
    if n > 0 {
      ThenUndisturbed(r, before, n - 1);
      ThenCounts(r, before, n - 1);
      UndisturbedOneMore(r, Then(before, n - 1), Add(n, 0));
    }
  }

  /** A success clears the counter, k failures follow and trip, and then the success stores its zero in the
      hold. */
  function LateLift(k: nat, now: int): seq<Step>
    requires k > 0
  {
    Then([Clear(0)], k - 1) + [Add(k, now)] + [Hold(k)] + [Reset(k)] + [Lift(0)]
  }

  lemma AfterClear(r: Rule)
    ensures Run(r, [Clear(0)], 1) == Mechanism(0, 0, map[0 := ToLift], Nobody, Cleared)
    ensures Failures(r, [Clear(0)], 1) == 0 && InOrder(r, [Clear(0)], 1) == Pair(0, 0)
    ensures Undisturbed(r, [Clear(0)], 1)
  {
    assert Run(r, [Clear(0)], 0) == REST;
  }

  /** For every threshold, although nothing disturbs the counter: no hold is left of a trip that every
      success came before. */
  lemma {:induction false} LateLiftDropsHold(r: Rule, k: nat, now: int)
    requires r.threshold == k > 0 && now + r.period != 0
    ensures var steps := LateLift(k, now); var n := |steps|; var s := Run(r, steps, n);
            && Undisturbed(r, steps, n) && s.due == map[] && DropsHold(r, s)
            && s.hold == 0 && InOrder(r, steps, n) == Pair(0, now + r.period)
  {
    hide Run, Failures, InOrder, Undisturbed;
    AfterClear(r);
    ThenCounts(r, [Clear(0)], k - 1);
    ThenUndisturbed(r, [Clear(0)], k - 1);
    var s1 := Then([Clear(0)], k - 1);
    RunOneMore(r, s1, Add(k, now));
    UndisturbedOneMore(r, s1, Add(k, now));
    var s2 := s1 + [Add(k, now)];
    RunOneMore(r, s2, Hold(k));
    UndisturbedOneMore(r, s2, Hold(k));
    var s3 := s2 + [Hold(k)];
    RunOneMore(r, s3, Reset(k));
    UndisturbedOneMore(r, s3, Reset(k));
    var s4 := s3 + [Reset(k)];
    RunOneMore(r, s4, Lift(0));
    UndisturbedOneMore(r, s4, Lift(0));
  }
}
