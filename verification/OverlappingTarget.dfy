/** One target whose marks overlap.

    Each mark goes through the passive mechanism and then the breaker, one atomic operation at a time. */
module OverlappingTarget {
  import opened Common
  import opened UpstreamHealth
  import opened OverlappingMarks

  datatype Where = InPassive | BeforeBreaker | InBreaker

  datatype Stage = Stage(mark: Mark, at: Where)

  /** Both mechanisms, and how far the marks under way have come. */
  datatype State = State(passive: Mechanism, breaker: Mechanism, marks: map<int, Stage>)

  /** A mark begins with its first operation, or goes on with its next. */
  datatype Move = Begin(id: int, mark: Mark) | Go(id: int)

  const PASSIVE := Rule(PASSIVE_FAIL_THRESHOLD, PASSIVE_RECOVER_WINDOW)

  function Breaker(c: Circuit): Rule {
    Rule(c.threshold, c.openFor)
  }

  function Rest(id: int, d: Due): Step {
    match d
    case ToHold(_) => Hold(id)
    case ToReset(_) => Reset(id)
    case ToLift => Lift(id)
  }

  /** The operation of a move on the passive mechanism, if any. */
  function PassiveStep(s: State, m: Move): Option<Step> {
    match m
    case Begin(id, mark) =>
      if id in s.marks || id in s.passive.due then None
      else Some(if mark.Success? then Clear(id) else Add(id, mark.now))
    case Go(id) =>
      if id in s.marks && s.marks[id].at.InPassive? && id in s.passive.due then Some(Rest(id, s.passive.due[id]))
      else None
  }

  /** A failure passes by a breaker that is not enabled. */
  function BreakerStep(c: Circuit, s: State, m: Move): Option<Step> {
    if m.Begin? || m.id !in s.marks then None
    else
      var stage := s.marks[m.id];
      if BeginsBreaker(c, s, m) then Some(if stage.mark.Success? then Clear(m.id) else Add(m.id, stage.mark.cbNow))
      else if stage.at.InBreaker? && m.id in s.breaker.due then Some(Rest(m.id, s.breaker.due[m.id]))
      else None
  }

  predicate BeginsPassive(s: State, m: Move) {
    m.Begin? && m.id !in s.marks && m.id !in s.passive.due
  }

  predicate BeginsBreaker(c: Circuit, s: State, m: Move) {
    m.Go? && m.id in s.marks && s.marks[m.id].at.BeforeBreaker? && m.id !in s.breaker.due
    && (s.marks[m.id].mark.Success? || c.enabled)
  }

  function Follow(r: Rule, s: Mechanism, step: Option<Step>): Mechanism {
    if step.None? then s else Next(r, s, step.value)
  }

  /** Where a mark stands after a move; it is gone once the breaker is done with it. */
  function Advance(s: State, m: Move, passive: Mechanism, breaker: Mechanism): map<int, Stage> {
    match m
    case Begin(id, mark) =>
      if !BeginsPassive(s, m) then s.marks
      else s.marks[id := Stage(mark, if id in passive.due then InPassive else BeforeBreaker)]
    case Go(id) =>
      if id !in s.marks then s.marks
      else if s.marks[id].at.InPassive? then
        if id in passive.due then s.marks else s.marks[id := s.marks[id].(at := BeforeBreaker)]
      else if id in breaker.due then s.marks[id := s.marks[id].(at := InBreaker)]
      else s.marks - {id}
  }

  function Moved(c: Circuit, s: State, m: Move): State {
    var passive := Follow(PASSIVE, s.passive, PassiveStep(s, m));
    var breaker := Follow(Breaker(c), s.breaker, BreakerStep(c, s, m));
    State(passive, breaker, Advance(s, m, passive, breaker))
  }

  function Reach(c: Circuit, moves: seq<Move>, n: nat): State
    requires n <= |moves|
  {
    if n == 0 then State(REST, REST, map[]) else Moved(c, Reach(c, moves, n - 1), moves[n - 1])
  }

  // ---------- the schedule as each mechanism sees it ----------

  function Taken(step: Option<Step>): seq<Step> {
    if step.None? then [] else [step.value]
  }

  function PassiveSteps(c: Circuit, moves: seq<Move>, n: nat): seq<Step>
    requires n <= |moves|
  {
    if n == 0 then []
    else PassiveSteps(c, moves, n - 1) + Taken(PassiveStep(Reach(c, moves, n - 1), moves[n - 1]))
  }

  function BreakerSteps(c: Circuit, moves: seq<Move>, n: nat): seq<Step>
    requires n <= |moves|
  {
    if n == 0 then []
    else BreakerSteps(c, moves, n - 1) + Taken(BreakerStep(c, Reach(c, moves, n - 1), moves[n - 1]))
  }

  /** The marks in the order in which they first touch the passive counter. */
  function PassiveOrder(c: Circuit, moves: seq<Move>, n: nat): seq<Mark>
    requires n <= |moves|
  {
    if n == 0 then []
    else PassiveOrder(c, moves, n - 1) + if BeginsPassive(Reach(c, moves, n - 1), moves[n - 1]) then [moves[n - 1].mark] else []
  }

  /** And in which they first touch the breaker's. */
  function BreakerOrder(c: Circuit, moves: seq<Move>, n: nat): seq<Mark>
    requires n <= |moves|
  {
    if n == 0 then []
    else
      var s, m := Reach(c, moves, n - 1), moves[n - 1];
      BreakerOrder(c, moves, n - 1) + if BeginsBreaker(c, s, m) then [s.marks[m.id].mark] else []
  }

  lemma TakenRuns(r: Rule, steps: seq<Step>, step: Option<Step>)
    ensures var s, all := Run(r, steps, |steps|), steps + Taken(step); Run(r, all, |all|) == Follow(r, s, step)
  {
    if step.None? {
      assert steps + Taken(step) == steps;
    } else {
      RunOneMore(r, steps, step.value);
    }
  }

  /** Each mechanism is where its own schedule takes it. */
  lemma {:induction false} ProjectionsRun(c: Circuit, moves: seq<Move>, n: nat)
    requires n <= |moves|
    ensures var s, p, b := Reach(c, moves, n), PassiveSteps(c, moves, n), BreakerSteps(c, moves, n);
            s.passive == Run(PASSIVE, p, |p|) && s.breaker == Run(Breaker(c), b, |b|)
  {
    hide PassiveStep, BreakerStep, Advance, Run, Next;
    if n == 0 {
      RunNothing();
    } else {
      ProjectionsRun(c, moves, n - 1);
      var s, m := Reach(c, moves, n - 1), moves[n - 1];
      TakenRuns(PASSIVE, PassiveSteps(c, moves, n - 1), PassiveStep(s, m));
      TakenRuns(Breaker(c), BreakerSteps(c, moves, n - 1), BreakerStep(c, s, m));
    }
  }

  lemma RunNothing()
    ensures forall r :: Run(r, [], 0) == REST
  {
  }

  /** Marks a mechanism has under way are under way. */
  ghost predicate Underway(s: State) {
    && (forall id :: id in s.passive.due ==> id in s.marks && s.marks[id].at.InPassive?)
    && (forall id :: id in s.breaker.due ==> id in s.marks && s.marks[id].at.InBreaker?)
  }

  lemma NextTouchesOne(r: Rule, s: Mechanism, step: Step)
    ensures forall id :: id != step.id ==> (id in Next(r, s, step).due <==> id in s.due)
  {
  }

  lemma MoveKeepsUnderway(c: Circuit, s: State, m: Move)
    requires Underway(s)
    ensures Underway(Moved(c, s, m))
  {
    hide Next;
    if PassiveStep(s, m).Some? {
      NextTouchesOne(PASSIVE, s.passive, PassiveStep(s, m).value);
    }
    if BreakerStep(c, s, m).Some? {
      NextTouchesOne(Breaker(c), s.breaker, BreakerStep(c, s, m).value);
    }
  }

  lemma {:induction false} AlwaysUnderway(c: Circuit, moves: seq<Move>, n: nat)
    requires n <= |moves|
    ensures Underway(Reach(c, moves, n))
  {
    hide Underway, Moved;
    if n == 0 {
      NoneUnderway();
    } else {
      AlwaysUnderway(c, moves, n - 1);
      MoveKeepsUnderway(c, Reach(c, moves, n - 1), moves[n - 1]);
    }
  }

  lemma NoneUnderway()
    ensures Underway(State(REST, REST, map[]))
  {
  }

  lemma AllEnded(s: State)
    requires Underway(s) && s.marks == map[]
    ensures s.passive.due == map[] && s.breaker.due == map[]
    ensures Pending(s.passive) == {} && Pending(s.breaker) == {}
  {
    assert forall id :: id !in s.passive.due && id !in s.breaker.due;
  }

  // ---------- no failure lost ----------

  ghost predicate LosesNothing(r: Rule, steps: seq<Step>) {
    forall i :: 0 <= i < |steps| ==> !Loses(r, steps, i)
  }

  /** Once all marks have ended, neither counter has lost a failure exactly if in neither mechanism a mark
      came between an addition that reached the threshold and its reset. */
  lemma {:induction false} NeitherCounterLosesExactly(c: Circuit, moves: seq<Move>)
    requires c.Valid() && c.enabled && Reach(c, moves, |moves|).marks == map[]
    ensures var p, b := PassiveSteps(c, moves, |moves|), BreakerSteps(c, moves, |moves|);
            LosesNothing(PASSIVE, p) && LosesNothing(Breaker(c), b)
            <==> Undisturbed(PASSIVE, p, |p|) && Undisturbed(Breaker(c), b, |b|)
  {
    hide Reach, PassiveSteps, BreakerSteps, Run;
    ProjectionsRun(c, moves, |moves|);
    AlwaysUnderway(c, moves, |moves|);
    AllEnded(Reach(c, moves, |moves|));
    NothingIsLostExactly(PASSIVE, PassiveSteps(c, moves, |moves|));
    NothingIsLostExactly(Breaker(c), BreakerSteps(c, moves, |moves|));
  }

  // ---------- as if every mark were one step ----------

  lemma {:induction false} AfterPrefix(c: Circuit, marks: seq<Mark>, more: seq<Mark>, n: nat)
    requires n <= |marks|
    ensures After(c, marks + more, n) == After(c, marks, n)
  {
    if n > 0 {
      AfterPrefix(c, marks, more, n - 1);
      assert (marks + more)[n - 1] == marks[n - 1];
    }
  }

  lemma AfterOneMore(c: Circuit, marks: seq<Mark>, m: Mark)
    ensures var h, all := After(c, marks, |marks|), marks + [m];
            After(c, all, |all|) == if m.Success? then FRESH else Failed(c, h, m.now, m.cbNow)
  {
    AfterPrefix(c, marks, [m], |marks|);
  }

  function PassivePart(h: Health): Pair {
    Pair(h.failures, h.unhealthyUntil)
  }

  function BreakerPart(h: Health): Pair {
    Pair(h.cbFailures, h.cbOpenUntil)
  }

  lemma OtherStepsKeepOrder(r: Rule, steps: seq<Step>, id: int, d: Due)
    ensures var all := steps + [Rest(id, d)]; InOrder(r, all, |all|) == InOrder(r, steps, |steps|)
  {
    RunOneMore(r, steps, Rest(id, d));
  }

  /** The passive mechanism's schedule, one step a mark, is that of the marks in its order. */
  lemma {:induction false} PassiveIsInOrder(c: Circuit, moves: seq<Move>, n: nat)
    requires n <= |moves|
    ensures var p, marks := PassiveSteps(c, moves, n), PassiveOrder(c, moves, n);
            InOrder(PASSIVE, p, |p|) == PassivePart(After(c, marks, |marks|))
  {
    hide Run, Moved, InOrder, After;
    if n == 0 {
      NothingInOrder(c);
    } else {
      PassiveIsInOrder(c, moves, n - 1);
      ProjectionsRun(c, moves, n - 1);
      var s, m := Reach(c, moves, n - 1), moves[n - 1];
      var p, marks := PassiveSteps(c, moves, n - 1), PassiveOrder(c, moves, n - 1);
      if BeginsPassive(s, m) {
        RunOneMore(PASSIVE, p, PassiveStep(s, m).value);
        AfterOneMore(c, marks, m.mark);
      } else {
        assert marks + [] == marks && p + [] == p;
        if PassiveStep(s, m).Some? {
          OtherStepsKeepOrder(PASSIVE, p, m.id, s.passive.due[m.id]);
        }
      }
    }
  }

  lemma {:induction false} BreakerIsInOrder(c: Circuit, moves: seq<Move>, n: nat)
    requires c.enabled && n <= |moves|
    ensures var b, marks := BreakerSteps(c, moves, n), BreakerOrder(c, moves, n);
            InOrder(Breaker(c), b, |b|) == BreakerPart(After(c, marks, |marks|))
  {
    hide Run, Moved, InOrder, After;
    if n == 0 {
      NothingInOrder(c);
    } else {
      BreakerIsInOrder(c, moves, n - 1);
      ProjectionsRun(c, moves, n - 1);
      var s, m := Reach(c, moves, n - 1), moves[n - 1];
      var b, marks := BreakerSteps(c, moves, n - 1), BreakerOrder(c, moves, n - 1);
      if BeginsBreaker(c, s, m) {
        RunOneMore(Breaker(c), b, BreakerStep(c, s, m).value);
        AfterOneMore(c, marks, s.marks[m.id].mark);
      } else {
        assert marks + [] == marks && b + [] == b;
        if BreakerStep(c, s, m).Some? {
          OtherStepsKeepOrder(Breaker(c), b, m.id, s.breaker.due[m.id]);
        }
      }
    }
  }

  lemma NothingInOrder(c: Circuit)
    ensures After(c, [], 0) == FRESH && forall r :: InOrder(r, [], 0) == Pair(0, 0)
  {
  }

  /** All marks have ended, and none came between an addition that tripped and its reset. */
  ghost predicate Settled(c: Circuit, moves: seq<Move>) {
    var p, b := PassiveSteps(c, moves, |moves|), BreakerSteps(c, moves, |moves|);
    && Reach(c, moves, |moves|).marks == map[]
    && Undisturbed(PASSIVE, p, |p|) && (c.enabled ==> Undisturbed(Breaker(c), b, |b|))
  }

  /** What one-step marks would leave, each mechanism in the order of its own counter. */
  function OneStepEach(c: Circuit, moves: seq<Move>): Health {
    var p, b := PassiveOrder(c, moves, |moves|), BreakerOrder(c, moves, |moves|);
    var passive, breaker := After(c, p, |p|), After(c, b, |b|);
    Health(passive.failures, passive.unhealthyUntil, breaker.cbFailures, breaker.cbOpenUntil)
  }

  function ValueOf(s: State): Health {
    Health(s.passive.count, s.passive.hold, s.breaker.count, s.breaker.hold)
  }

  lemma {:induction false} SettledPassive(c: Circuit, moves: seq<Move>)
    requires c.Valid() && Settled(c, moves)
    ensures var s, h := Reach(c, moves, |moves|).passive, OneStepEach(c, moves);
            && s.count == h.failures && s.hold == (if DropsHold(PASSIVE, s) then 0 else h.unhealthyUntil)
            && (s.hold == h.unhealthyUntil <==> !DropsHold(PASSIVE, s))
  {
    hide Reach, PassiveSteps, BreakerSteps, PassiveOrder, BreakerOrder, Run, InOrder, After, Undisturbed, DropsHold;
    var n, p := |moves|, PassiveSteps(c, moves, |moves|);
    ProjectionsRun(c, moves, n);
    AlwaysUnderway(c, moves, n);
    AllEnded(Reach(c, moves, n));
    SettledInOrderExactly(PASSIVE, p, |p|);
    PassiveIsInOrder(c, moves, n);
  }

  lemma {:induction false} SettledBreaker(c: Circuit, moves: seq<Move>)
    requires c.Valid() && c.enabled && Settled(c, moves)
    ensures var s, h := Reach(c, moves, |moves|).breaker, OneStepEach(c, moves);
            && s.count == h.cbFailures && s.hold == (if DropsHold(Breaker(c), s) then 0 else h.cbOpenUntil)
            && (s.hold == h.cbOpenUntil <==> !DropsHold(Breaker(c), s))
  {
    hide Reach, PassiveSteps, BreakerSteps, PassiveOrder, BreakerOrder, Run, InOrder, After, Undisturbed, DropsHold;
    var n, b := |moves|, BreakerSteps(c, moves, |moves|);
    ProjectionsRun(c, moves, n);
    AlwaysUnderway(c, moves, n);
    AllEnded(Reach(c, moves, n));
    SettledInOrderExactly(Breaker(c), b, |b|);
    BreakerIsInOrder(c, moves, n);
  }

  /** Then the target is as one-step marks leave it exactly if in neither mechanism a success stored its
      zero over the hold of a later trip; a mechanism in which that happened has no hold. */
  lemma {:induction false} SettledTargetExactly(c: Circuit, moves: seq<Move>)
    requires c.Valid() && c.enabled && Settled(c, moves)
    ensures var s, h := Reach(c, moves, |moves|), OneStepEach(c, moves);
            && ValueOf(s).(unhealthyUntil := 0, cbOpenUntil := 0) == h.(unhealthyUntil := 0, cbOpenUntil := 0)
            && (ValueOf(s) == h <==> !DropsHold(PASSIVE, s.passive) && !DropsHold(Breaker(c), s.breaker))
            && (DropsHold(PASSIVE, s.passive) ==> s.passive.hold == 0)
            && (DropsHold(Breaker(c), s.breaker) ==> s.breaker.hold == 0)
  {
    hide Reach, OneStepEach, Settled, DropsHold;
    SettledPassive(c, moves);
    SettledBreaker(c, moves);
  }

  /** So a target, with its breaker enabled or not, is skipped within the period of a trip that no success
      came after, in the order of that mechanism, unless such an overtaking zero dropped the hold; and
      never otherwise. */
  lemma {:induction false} SettledSkippedExactly(c: Circuit, moves: seq<Move>, t: int)
    requires c.Valid() && Settled(c, moves) && t >= 0
    requires PassiveTimes(PassiveOrder(c, moves, |moves|))
    requires c.enabled ==> CircuitTimes(c, BreakerOrder(c, moves, |moves|))
    ensures var s, p, b := Reach(c, moves, |moves|), PassiveOrder(c, moves, |moves|), BreakerOrder(c, moves, |moves|);
            Skipped(c, ValueOf(s), t)
            <==> || (!DropsHold(PASSIVE, s.passive) && exists i: nat :: PassiveHold(p, |p|, t, i))
                 || (!DropsHold(Breaker(c), s.breaker) && exists i: nat :: CircuitHold(c, b, |b|, t, i))
  {
    hide Reach, PassiveOrder, BreakerOrder, After, Settled, DropsHold, PassiveHold, PassiveTimes, CircuitTimes;
    SettledPassive(c, moves);
    var p, b := PassiveOrder(c, moves, |moves|), BreakerOrder(c, moves, |moves|);
    PassiveIsLastTrip(c, p, |p|, t);
    if c.enabled {
      SettledBreaker(c, moves);
      CircuitIsLastTrip(c, b, |b|, t);
    }
  }
}
