/** The access log: a bounded list of recent rows in memory, queries over it, and a background flusher
    that copies it to a file while requests keep appending. */
module AccessLog {
  import opened Common
  import opened Text

  // ---------- rows ----------

  /** Times are in nanoseconds; rest stands for the columns no query looks at. */
  datatype Entry = Entry(time: int, siteID: string, domain: string, status: int, rest: string)

  datatype Config = Config(maxRows: nat, retention: int)

  const DEFAULT_MAX_ROWS := 10000

  // ---------- pruning ----------

  /** How many rows at the front are older than the cutoff. */
  function Leading(logs: seq<Entry>, cutoff: int): (n: nat)
    ensures n <= |logs|
    ensures n < |logs| ==> logs[n].time >= cutoff
    ensures forall k :: 0 <= k < n ==> logs[k].time < cutoff
  {
    if logs != [] && logs[0].time < cutoff then 1 + Leading(logs[1..], cutoff) else 0
  }

  function LastRows(logs: seq<Entry>, n: nat): seq<Entry> {
    if |logs| > n then logs[|logs| - n..] else logs
  }

  function Pruned(c: Config, logs: seq<Entry>, now: int): seq<Entry> {
    LastRows(if c.retention > 0 then logs[Leading(logs, now - c.retention)..] else logs, c.maxRows)
  }

  function NotOlder(logs: seq<Entry>, cutoff: int): seq<Entry> {
    if logs == [] then []
    else (if logs[0].time >= cutoff then [logs[0]] else []) + NotOlder(logs[1..], cutoff)
  }

  ghost predicate InTimeOrder(logs: seq<Entry>) {
    forall i, j :: 0 <= i < j < |logs| ==> logs[i].time <= logs[j].time
  }

  lemma {:induction false} NothingOld(logs: seq<Entry>, cutoff: int)
    requires forall i :: 0 <= i < |logs| ==> logs[i].time >= cutoff
    ensures NotOlder(logs, cutoff) == logs && Leading(logs, cutoff) == 0
  {
    if logs != [] {
      NothingOld(logs[1..], cutoff);
    }
  }

  lemma {:induction false} LeadingIsAllOld(logs: seq<Entry>, cutoff: int)
    requires InTimeOrder(logs)
    ensures logs[Leading(logs, cutoff)..] == NotOlder(logs, cutoff)
  {
    if logs != [] {
      if logs[0].time < cutoff {
        LeadingIsAllOld(logs[1..], cutoff);
        assert logs[Leading(logs, cutoff)..] == logs[1..][Leading(logs[1..], cutoff)..];
      } else {
        NothingOld(logs, cutoff);
      }
    }
  }

  lemma {:induction false} NotOlderHolds(logs: seq<Entry>, cutoff: int)
    ensures forall e :: e in NotOlder(logs, cutoff) <==> e in logs && e.time >= cutoff
  {
    if logs != [] {
      NotOlderHolds(logs[1..], cutoff);
      assert logs == [logs[0]] + logs[1..];
    }
  }

  /** For rows in time order, pruning keeps exactly the newest of those that are recent enough; in
      particular no row older than the cutoff survives. */
  lemma PruneKeepsTheRecent(c: Config, logs: seq<Entry>, now: int)
    requires InTimeOrder(logs) && c.retention > 0
    ensures var recent := NotOlder(logs, now - c.retention);
            Pruned(c, logs, now) == recent[|recent| - Min(|recent|, c.maxRows)..]
    ensures forall e :: e in Pruned(c, logs, now) ==> e in logs && e.time >= now - c.retention
  {
    hide NotOlder, Leading, LastRows, InTimeOrder;
    var recent := NotOlder(logs, now - c.retention);
    LeadingIsAllOld(logs, now - c.retention);
    NotOlderHolds(logs, now - c.retention);
    LastRowsAreRows(recent, c.maxRows);
  }

  /** Without a retention only the number of rows counts. */
  lemma PruneKeepsTheNewest(c: Config, logs: seq<Entry>, now: int)
    requires c.retention <= 0
    ensures Pruned(c, logs, now) == logs[|logs| - Min(|logs|, c.maxRows)..]
  {
  }

  lemma LastRowsAreRows(logs: seq<Entry>, n: nat)
    ensures LastRows(logs, n) == logs[|logs| - Min(|logs|, n)..]
    ensures forall e :: e in LastRows(logs, n) ==> e in logs
  {
  }

  lemma PruneKeepsASuffix(c: Config, logs: seq<Entry>, now: int)
    ensures |Pruned(c, logs, now)| <= |logs| && |Pruned(c, logs, now)| <= c.maxRows
    ensures Pruned(c, logs, now) == logs[|logs| - |Pruned(c, logs, now)|..]
  {
    var cutoff := now - c.retention;
    var recent := if c.retention > 0 then logs[Leading(logs, cutoff)..] else logs;
    assert recent == logs[|logs| - |recent|..];
  }

  // ---------- queries ----------

  datatype Filter = Filter(
    limit: int, from: Option<int>, to: Option<int>, siteID: string, domain: string, statusMin: int, statusMax: int)

  predicate MatchAccessLog(e: Entry, from: Option<int>, to: Option<int>, siteID: string, domain: string,
                           statusMin: int, statusMax: int) {
    && !(from.Some? && e.time < from.value)
    && !(to.Some? && e.time > to.value)
    && !(siteID != "" && e.siteID != siteID)
    && !(domain != "" && !EqualFold(e.domain, domain))
    && !(e.status < statusMin || e.status > statusMax)
  }

  /** What a filter asks for, with its defaults: status codes at least 0 and at most 999. */
  predicate Wanted(f: Filter, e: Entry) {
    && (f.from.Some? ==> f.from.value <= e.time)
    && (f.to.Some? ==> e.time <= f.to.value)
    && Trim(f.siteID) in {"", e.siteID}
    && (Trim(f.domain) == "" || EqualFold(Trim(f.domain), e.domain))
    && Max(f.statusMin, 0) <= e.status <= if f.statusMax <= 0 then 999 else f.statusMax
  }

  function Reversed(s: seq<Entry>): seq<Entry> {
    if s == [] then [] else [s[|s| - 1]] + Reversed(s[..|s| - 1])
  }

  function Selected(f: Filter, s: seq<Entry>): seq<Entry> {
    if s == [] then [] else (if Wanted(f, s[0]) then [s[0]] else []) + Selected(f, s[1..])
  }

  function FirstRows(s: seq<Entry>, n: nat): seq<Entry> {
    if |s| > n then s[..n] else s
  }

  function Limit(f: Filter): nat {
    if f.limit <= 0 then 50 else f.limit
  }

  /** The newest wanted rows, newest first. */
  function Answer(f: Filter, logs: seq<Entry>): seq<Entry> {
    FirstRows(Selected(f, Reversed(logs)), Limit(f))
  }

  lemma SelectedOfOneMore(f: Filter, logs: seq<Entry>, i: nat)
    requires i < |logs|
    ensures Selected(f, Reversed(logs[..i + 1])) ==
            (if Wanted(f, logs[i]) then [logs[i]] else []) + Selected(f, Reversed(logs[..i]))
  {
    assert logs[..i + 1][..i] == logs[..i];
    assert Reversed(logs[..i + 1])[1..] == Reversed(logs[..i]);
  }

  /** The row lies in the times asked for, belongs to the site and the domain named, if any are, and has a status
      between the bounds, if they are set. */
  ghost predicate Fits(f: Filter, e: Entry) {
    && (f.from.None? || e.time >= f.from.value) && (f.to.None? || e.time <= f.to.value)
    && (Trim(f.siteID) == "" || e.siteID == Trim(f.siteID))
    && (Trim(f.domain) == "" || EqualFold(e.domain, Trim(f.domain)))
    && (e.status >= 0 && (f.statusMin > 0 ==> e.status >= f.statusMin))
    && (if f.statusMax > 0 then e.status <= f.statusMax else e.status < 1000)
  }

  lemma WantedFits(f: Filter, e: Entry)
    ensures Wanted(f, e) <==> Fits(f, e)
  {
    hide Trim;
    assert EqualFold(Trim(f.domain), e.domain) <==> EqualFold(e.domain, Trim(f.domain));
  }

  /** The rows s are the fitting rows of the log at the places `at`. */
  ghost predicate Placed(f: Filter, logs: seq<Entry>, s: seq<Entry>, at: seq<nat>) {
    |at| == |s| && forall k :: 0 <= k < |at| ==> at[k] < |logs| && s[k] == logs[at[k]] && Fits(f, s[k])
  }

  ghost predicate Falling(at: seq<nat>) {
    forall k, l :: 0 <= k < l < |at| ==> at[k] > at[l]
  }

  ghost predicate AllPlaced(f: Filter, logs: seq<Entry>, at: seq<nat>) {
    forall m: nat :: m < |logs| && Fits(f, logs[m]) ==> m in at
  }

  lemma PlacedOneMore(f: Filter, logs: seq<Entry>, e: Entry, s: seq<Entry>, at: seq<nat>)
    requires Placed(f, logs, s, at)
    ensures Placed(f, logs + [e], s, at)
    ensures Fits(f, e) ==> Placed(f, logs + [e], [e] + s, [|logs|] + at)
  {
    hide Fits;
    var more := [|logs| as nat] + at;
    forall k | 0 < k < |more|
      ensures more[k] == at[k - 1] && ([e] + s)[k] == s[k - 1]
    {
    }
  }

  lemma FallingOneMore(at: seq<nat>, n: nat)
    requires Falling(at) && forall k :: 0 <= k < |at| ==> at[k] < n
    ensures Falling([n] + at)
  {
  }

  lemma AllPlacedOneMore(f: Filter, logs: seq<Entry>, e: Entry, at: seq<nat>)
    requires AllPlaced(f, logs, at)
    ensures AllPlaced(f, logs + [e], if Fits(f, e) then [|logs|] + at else at)
  {
    hide Fits;
    var all, more := logs + [e], if Fits(f, e) then [|logs| as nat] + at else at;
    forall m: nat | m < |all| && Fits(f, all[m])
      ensures m in more
    {
      if m < |logs| {
        assert logs[m] == all[m];
        assert m in at;
      } else {
        assert more[0] == m;
      }
    }
  }

  lemma NothingPlaced(f: Filter)
    ensures Placed(f, [], Selected(f, Reversed([])), []) && Falling([]) && AllPlaced(f, [], [])
  {
  }

  lemma PlacesStep(f: Filter, logs: seq<Entry>, e: Entry, s: seq<Entry>, at: seq<nat>)
    requires Placed(f, logs, s, at) && Falling(at) && AllPlaced(f, logs, at)
    ensures var at' := if Fits(f, e) then [|logs|] + at else at;
            Placed(f, logs + [e], (if Fits(f, e) then [e] else []) + s, at') && Falling(at') && AllPlaced(f, logs + [e], at')
  {
    hide Fits, AllPlaced;
    PlacedOneMore(f, logs, e, s, at);
    FallingOneMore(at, |logs|);
    AllPlacedOneMore(f, logs, e, at);
    assert [] + s == s;
    hide Placed, Falling;
  }

  lemma {:induction false} SelectedPlaces(f: Filter, logs: seq<Entry>) returns (at: seq<nat>)
    ensures Placed(f, logs, Selected(f, Reversed(logs)), at) && Falling(at) && AllPlaced(f, logs, at)
  {
    hide Selected, Reversed, Wanted, Fits, Placed, Falling, AllPlaced;
    if logs == [] {
      at := [];
      NothingPlaced(f);
    } else {
      var n := |logs| - 1;
      at := SelectedPlaces(f, logs[..n]);
      SelectedOfOneMore(f, logs, n);
      assert logs[..n + 1] == logs && logs == logs[..n] + [logs[n]];
      WantedFits(f, logs[n]);
      PlacesStep(f, logs[..n], logs[n], Selected(f, Reversed(logs[..n])), at);
      at := if Fits(f, logs[n]) then [n] + at else at;
    }
  }

  /** The answer: fitting rows of the log, from its end, none left out before the limit is reached. */
  lemma {:induction false} AnswerIsNewest(f: Filter, logs: seq<Entry>) returns (at: seq<nat>)
    ensures var answer, limit := Answer(f, logs), if f.limit <= 0 then 50 else f.limit;
            && |answer| <= limit && Placed(f, logs, answer, at) && Falling(at)
            && forall m: nat :: m < |logs| && Fits(f, logs[m]) && m !in at ==>
                 |answer| == limit && forall k :: 0 <= k < |at| ==> at[k] > m
  {
    var all := SelectedPlaces(f, logs);
    hide Selected, Fits;
    var n := |Answer(f, logs)|;
    at := all[..n];
    forall m: nat | m < |logs| && Fits(f, logs[m]) && m !in at
      ensures n == Limit(f) && forall k :: 0 <= k < |at| ==> at[k] > m
    {
      LeftOut(all, n, m);
    }
    hide AllPlaced;
  }

  lemma LeftOut(all: seq<nat>, n: nat, m: nat)
    requires Falling(all) && n <= |all| && m in all && m !in all[..n]
    ensures n < |all| && forall k :: 0 <= k < n ==> all[k] > m
  {
    forall k | 0 <= k < n
      ensures all[k] in all[..n]
    {
      assert all[..n][k] == all[k];
    }
    var l :| 0 <= l < |all| && all[l] == m;
  }

  ghost predicate Taken(f: Filter, logs: seq<Entry>, out: seq<Entry>, i: nat)
    requires i <= |logs|
  {
    Selected(f, Reversed(logs)) == out + Selected(f, Reversed(logs[..i]))
  }

  lemma TakenOneMore(f: Filter, logs: seq<Entry>, out: seq<Entry>, i: nat)
    requires i < |logs| && Taken(f, logs, out, i + 1)
    ensures Taken(f, logs, if Wanted(f, logs[i]) then out + [logs[i]] else out, i)
  {
    SelectedOfOneMore(f, logs, i);
  }

  /** The filter's defaults, then the row against the filter. */
  method CheckRow(f: Filter, e: Entry) returns (matches: bool)
    ensures matches == Wanted(f, e)
  {
    var statusMin := if f.statusMin <= 0 then 0 else f.statusMin;
    var statusMax := if f.statusMax <= 0 then 999 else f.statusMax;
    matches := MatchAccessLog(e, f.from, f.to, Trim(f.siteID), Trim(f.domain), statusMin, statusMax);
  }

  lemma AnsweredSoFar(f: Filter, logs: seq<Entry>, out: seq<Entry>, i: nat)
    requires i <= |logs| && Taken(f, logs, out, i)
    requires |out| <= Limit(f) && (i == 0 || |out| == Limit(f))
    ensures Answer(f, logs) == out
  {
    assert logs[..0] == [];
  }

  // ---------- the store ----------

  /** What the lock protects. */
  datatype Locked = Locked(logs: seq<Entry>, dirty: bool, closed: bool)

  function Appended(c: Config, v: Locked, e: Entry, now: int): Locked {
    if v.closed then v else Locked(Pruned(c, v.logs + [e], now), true, false)
  }

  function Marked(v: Locked): Locked {
    if v.closed then v else v.(dirty := true)
  }

  function Loaded(c: Config, rows: seq<Entry>, now: int): Locked {
    var logs := Pruned(c, rows, now);
    Locked(logs, |logs| != |rows|, false)
  }

  class AccessLogStore {
    const maxRows: nat
    const retention: int
    var logs: seq<Entry>
    var dirty: bool
    var closed: bool
    var file: seq<Entry>

    function Settings(): Config {
      Config(maxRows, retention)
    }

    function View(): Locked
      reads this
    {
      Locked(logs, dirty, closed)
    }

    /** Opens the store on the rows of an existing file. */
    constructor (maxRows: int, retention: int, rows: seq<Entry>, now: int)
      ensures Settings() == Config(if maxRows <= 0 then 10000 else maxRows, retention)
      ensures View() == Loaded(Settings(), rows, now) && file == rows
    {
      this.maxRows := if maxRows <= 0 then DEFAULT_MAX_ROWS else maxRows;
      this.retention := retention;
      logs, dirty, closed, file := rows, false, false, rows;
      new;
      PruneLocked(now);
      dirty := |logs| != |rows|;
    }

    method PruneLocked(now: int)
      modifies this`logs
      ensures logs == Pruned(Settings(), old(logs), now)
    {
      hide Leading;
      if retention > 0 {
        var cutoff := now - retention;
        var start := 0;
        while start < |logs| && logs[start].time < cutoff
          invariant start <= |logs| && logs == old(logs)
          invariant forall k :: 0 <= k < start ==> logs[k].time < cutoff
        {
          start := start + 1;
        }
        LeadingIs(logs, cutoff, start);
        if start > 0 {
          logs := logs[start..];
        }
      }
      if |logs| > maxRows {
        logs := logs[|logs| - maxRows..];
      }
    }

    method Append(e: Entry, now: int)
      modifies this`logs, this`dirty
      ensures View() == Appended(Settings(), old(View()), e, now)
    {
      if closed {
        return;
      }
      logs := logs + [e];
      PruneLocked(now);
      dirty := true;
    }

    method Query(f: Filter) returns (out: seq<Entry>)
      ensures out == Answer(f, logs)
    {
      var limit := if f.limit <= 0 then 50 else f.limit;
      out := [];
      assert logs[..|logs|] == logs;
      var i := |logs|;
      while i > 0 && |out| < limit
        invariant 0 <= i <= |logs| && |out| <= limit
        invariant Taken(f, logs, out, i)
      {
        i := i - 1;
        TakenOneMore(f, logs, out, i);
        var matches := CheckRow(f, logs[i]);
        if !matches {
          continue;
        }
        out := out + [logs[i]];
      }
      AnsweredSoFar(f, logs, out, i);
    }

    /** The first critical section of a flush: what to write, if anything. */
    method TakeSnapshot() returns (snapshot: Option<seq<Entry>>)
      modifies this`dirty
      ensures View() == old(View()).(dirty := false)
      ensures snapshot == if old(dirty) then Some(old(logs)) else None
    {
      if !dirty {
        return None;
      }
      snapshot := Some(logs);
      dirty := false;
    }

    method MarkDirty()
      modifies this`dirty
      ensures View() == Marked(old(View()))
    {
      if !closed {
        dirty := true;
      }
    }

    /** One flush with nobody else at work; the write may fail. */
    method Flush(written: bool)
      modifies this`dirty, this`file
      ensures View() == if old(dirty) && !written then Marked(old(View()).(dirty := false)) else old(View()).(dirty := false)
      ensures file == if old(dirty) && written then logs else old(file)
    {
      var snapshot := TakeSnapshot();
      if snapshot.None? {
        return;
      }
      if !written {
        MarkDirty();
        return;
      }
      file := snapshot.value;
    }

    method BeginClose()
      modifies this`closed
      ensures View() == old(View()).(closed := true)
    {
      if closed {
        return;
      }
      closed := true;
    }
  }

  lemma {:induction false} LeadingIs(logs: seq<Entry>, cutoff: int, n: nat)
    requires n <= |logs| && (n < |logs| ==> logs[n].time >= cutoff)
    requires forall k :: 0 <= k < n ==> logs[k].time < cutoff
    ensures Leading(logs, cutoff) == n
  {
    if n > 0 {
      LeadingIs(logs[1..], cutoff, n - 1);
    }
  }

  // ---------- appends and flushes, interleaved ----------

  /** What the flusher is doing: waiting for its ticker or the stop signal; writing a snapshot, the last
      one or not; having failed to, before it says so; or done. */
  datatype Phase = Waiting | Writing(snapshot: seq<Entry>, at: int, last: bool) | Failed(last: bool) | Stopped

  /** Records for the proof: every row ever accepted; the log after every change to it, from the rows found
      on file on; the version on file now and all that ever were; and whether a failed write found the
      store closed and nothing left to make it dirty again. */
  datatype Record = Record(
    history: seq<Entry>, versions: seq<seq<Entry>>, saved: int, stored: set<int>, lost: bool)

  datatype State = State(v: Locked, file: seq<Entry>, phase: Phase, r: Record)

  datatype Action = AppendRow(e: Entry, now: int) | Tick | Stop | Written | WriteFailed | SayFailed | Close

  function Start(c: Config, rows: seq<Entry>, now: int): State {
    var v := Loaded(c, rows, now);
    State(v, rows, Waiting, Record(rows, if v.dirty then [rows, v.logs] else [rows], 0, {0}, false))
  }

  function BeginFlush(s: State, last: bool): State {
    if s.v.dirty then s.(v := s.v.(dirty := false), phase := Writing(s.v.logs, |s.r.versions| - 1, last))
    else s.(phase := if last then Stopped else Waiting)
  }

  function Accept(c: Config, s: State, e: Entry, now: int): State {
    if s.v.closed then s
    else
      var v := Appended(c, s.v, e, now);
      s.(v := v, r := s.r.(history := s.r.history + [e], versions := s.r.versions + [v.logs]))
  }

  /** An action that cannot happen now changes nothing. The ticker may still win once the store is closed. */
  function Next(c: Config, s: State, a: Action): State {
    match a
    case AppendRow(e, now) => Accept(c, s, e, now)
    case Tick => if s.phase.Waiting? then BeginFlush(s, false) else s
    case Stop => if s.phase.Waiting? && s.v.closed then BeginFlush(s, true) else s
    case Written =>
      if s.phase.Writing? then
        s.(file := s.phase.snapshot, phase := if s.phase.last then Stopped else Waiting,
           r := s.r.(saved := s.phase.at, stored := s.r.stored + {s.phase.at}))
      else s
    case WriteFailed => if s.phase.Writing? then s.(phase := Failed(s.phase.last)) else s
    case SayFailed =>
      if s.phase.Failed? then
        s.(v := Marked(s.v), phase := if s.phase.last then Stopped else Waiting,
           r := s.r.(lost := s.r.lost || (s.v.closed && !s.v.dirty)))
      else s
    case Close => s.(v := s.v.(closed := true))
  }

  function Run(c: Config, start: State, actions: seq<Action>): State {
    if actions == [] then start
    else Next(c, Run(c, start, actions[..|actions| - 1]), actions[|actions| - 1])
  }

  ghost predicate IsSuffix(logs: seq<Entry>, history: seq<Entry>) {
    |logs| <= |history| && logs == history[|history| - |logs|..]
  }

  predicate Idle(s: State) {
    s.phase.Waiting? || s.phase.Stopped?
  }

  /** The version on file is the newest that ever was, the log is the last of all. */
  ghost predicate Recorded(s: State) {
    var r, last := s.r, |s.r.versions| - 1;
    && 0 <= r.saved <= last && r.versions[r.saved] == s.file && r.versions[last] == s.v.logs
    && r.saved in r.stored && forall k :: k in r.stored ==> k <= r.saved
  }

  /** What is newer than the file is on its way, announced by the dirty flag, or lost. */
  ghost predicate Tracked(s: State) {
    var r, last := s.r, |s.r.versions| - 1;
    && (s.phase.Writing? ==>
          0 <= r.saved < s.phase.at <= last && r.versions[s.phase.at] == s.phase.snapshot && (s.v.dirty <==> s.phase.at < last))
    && (s.phase.Failed? || s.v.dirty || r.lost ==> r.saved < last)
    && (Idle(s) && !s.v.dirty && !r.lost ==> r.saved == last)
  }

  ghost predicate Closing(s: State) {
    && ((s.phase.Writing? || s.phase.Failed?) && s.phase.last ==> s.v.closed && !s.v.dirty)
    && (s.phase.Stopped? ==> s.v.closed && !s.v.dirty)
    && (s.r.lost ==> s.v.closed && !s.v.dirty && Idle(s))
  }

  ghost predicate Coherent(c: Config, s: State) {
    && IsSuffix(s.v.logs, s.r.history) && |s.v.logs| <= c.maxRows
    && Recorded(s) && Tracked(s) && Closing(s)
  }

  lemma AppendKeepsSuffix(c: Config, logs: seq<Entry>, history: seq<Entry>, e: Entry, now: int)
    requires IsSuffix(logs, history)
    ensures IsSuffix(Pruned(c, logs + [e], now), history + [e])
  {
    PruneKeepsASuffix(c, logs + [e], now);
    assert logs + [e] == (history + [e])[|history| - |logs|..];
  }

  lemma {:induction false} StepCoherent(c: Config, s: State, a: Action)
    requires Coherent(c, s)
    ensures Coherent(c, Next(c, s, a))
  {
    if a.AppendRow? && !s.v.closed {
      AppendKeepsSuffix(c, s.v.logs, s.r.history, a.e, a.now);
      PruneKeepsASuffix(c, s.v.logs + [a.e], a.now);
    }
  }

  lemma StartCoherent(c: Config, rows: seq<Entry>, now: int)
    ensures Coherent(c, Start(c, rows, now))
  {
    PruneKeepsASuffix(c, rows, now);
  }

  lemma {:induction false} EveryRunCoherent(c: Config, rows: seq<Entry>, now: int, actions: seq<Action>)
    ensures Coherent(c, Run(c, Start(c, rows, now), actions))
  {
    if actions == [] {
      StartCoherent(c, rows, now);
    } else {
      EveryRunCoherent(c, rows, now, actions[..|actions| - 1]);
      StepCoherent(c, Run(c, Start(c, rows, now), actions[..|actions| - 1]), actions[|actions| - 1]);
    }
  }

  /** At all times the log is the end of all accepted rows, at most maxRows of them. */
  lemma {:induction false} LogIsBoundedSuffix(c: Config, rows: seq<Entry>, now: int, actions: seq<Action>)
    ensures var s := Run(c, Start(c, rows, now), actions);
            |s.v.logs| <= c.maxRows && IsSuffix(s.v.logs, s.r.history)
  {
    EveryRunCoherent(c, rows, now, actions);
  }

  /** As long as rows arrive in time order, no append leaves a row older than the retention behind, and
      of the others only the newest maxRows are kept. */
  lemma {:induction false} AppendLeavesNoOldRow(c: Config, rows: seq<Entry>, now0: int, actions: seq<Action>, e: Entry, now: int)
    requires c.retention > 0
    requires !Run(c, Start(c, rows, now0), actions).v.closed
    requires InTimeOrder(Run(c, Start(c, rows, now0), actions).r.history + [e])
    ensures var s := Run(c, Start(c, rows, now0), actions); var t := Next(c, s, AppendRow(e, now));
            var recent := NotOlder(s.v.logs + [e], now - c.retention);
            && t.v.logs == recent[|recent| - Min(|recent|, c.maxRows)..]
            && forall r :: r in t.v.logs ==> r.time >= now - c.retention
  {
    var s := Run(c, Start(c, rows, now0), actions);
    EveryRunCoherent(c, rows, now0, actions);
    var all := s.r.history + [e];
    assert s.v.logs + [e] == all[|s.r.history| - |s.v.logs|..];
    PruneKeepsTheRecent(c, s.v.logs + [e], now);
  }

  /** Whenever the log is clean and the flusher has no write under way, the file is the log; and so it is
      when closing is over, with everything accepted and still retained. The one exception is a failed
      write that is reported when the store is already closed and clean. */
  lemma {:induction false} CleanMeansOnDisk(c: Config, rows: seq<Entry>, now: int, actions: seq<Action>)
    ensures var s := Run(c, Start(c, rows, now), actions);
            && (!s.r.lost && !s.v.dirty && s.phase.Waiting? ==> s.file == s.v.logs)
            && (!s.r.lost && s.phase.Stopped? ==> s.file == s.v.logs && IsSuffix(s.file, s.r.history))
  {
    EveryRunCoherent(c, rows, now, actions);
  }

  /** That exception is no false alarm: of a clean log with no write under way, the last version was never
      on disk exactly if it is lost, and then the file is an earlier version. */
  lemma {:induction false} LostExactly(c: Config, rows: seq<Entry>, now: int, actions: seq<Action>)
    ensures var s := Run(c, Start(c, rows, now), actions); var last := |s.r.versions| - 1;
            && last >= 0 && s.v.logs == s.r.versions[last]
            && 0 <= s.r.saved <= last && s.file == s.r.versions[s.r.saved]
            && (Idle(s) && !s.v.dirty ==> (s.r.lost <==> last !in s.r.stored) && (s.r.lost <==> s.r.saved < last))
  {
    EveryRunCoherent(c, rows, now, actions);
  }

  // ---------- what a lost version misses ----------

  /** How many of the accepted rows can be in the k-th version, when the first `base` changes were not appends. */
  function Reach(n: nat, base: nat, k: nat): nat {
    n + Max(0, k - base)
  }

  ghost predicate Reaches(logs: seq<Entry>, history: seq<Entry>, n: nat) {
    n <= |history| && forall e :: e in logs ==> e in history[..n]
  }

  ghost predicate Traced(n: nat, base: nat, r: Record) {
    && base < |r.versions| && |r.history| == Reach(n, base, |r.versions| - 1)
    && forall k :: 0 <= k < |r.versions| ==> Reaches(r.versions[k], r.history, Reach(n, base, k))
  }

  lemma SuffixReaches(logs: seq<Entry>, history: seq<Entry>)
    requires IsSuffix(logs, history)
    ensures Reaches(logs, history, |history|)
  {
    assert history[..|history|] == history;
  }

  lemma ReachesLonger(logs: seq<Entry>, history: seq<Entry>, e: Entry, n: nat)
    requires Reaches(logs, history, n)
    ensures Reaches(logs, history + [e], n)
  {
    assert (history + [e])[..n] == history[..n];
  }

  lemma AcceptTraced(c: Config, s: State, e: Entry, now: int, n: nat, base: nat)
    requires Coherent(c, s) && Traced(n, base, s.r) && !s.v.closed
    ensures Traced(n, base, Accept(c, s, e, now).r)
  {
    hide IsSuffix, Recorded, Tracked, Closing, Reaches, Pruned;
    var t, last := Accept(c, s, e, now).r, |s.r.versions|;
    AppendKeepsSuffix(c, s.v.logs, s.r.history, e, now);
    SuffixReaches(t.versions[last], t.history);
    forall k | 0 <= k < |t.versions|
      ensures Reaches(t.versions[k], t.history, Reach(n, base, k))
    {
      if k < last {
        ReachesLonger(s.r.versions[k], s.r.history, e, Reach(n, base, k));
      }
    }
  }

  lemma {:induction false} EveryRunTraced(c: Config, rows: seq<Entry>, now: int, actions: seq<Action>)
    ensures Traced(|rows|, |Start(c, rows, now).r.versions| - 1, Run(c, Start(c, rows, now), actions).r)
  {
    hide Reaches, Coherent;
    if actions == [] {
      StartTraced(c, rows, now);
    } else {
      var before, a := actions[..|actions| - 1], actions[|actions| - 1];
      EveryRunTraced(c, rows, now, before);
      EveryRunCoherent(c, rows, now, before);
      var s := Run(c, Start(c, rows, now), before);
      if a.AppendRow? && !s.v.closed {
        AcceptTraced(c, s, a.e, a.now, |rows|, |Start(c, rows, now).r.versions| - 1);
      }
    }
  }

  lemma StartTraced(c: Config, rows: seq<Entry>, now: int)
    ensures Traced(|rows|, |Start(c, rows, now).r.versions| - 1, Start(c, rows, now).r)
  {
    PruneKeepsASuffix(c, rows, now);
    assert rows[..|rows|] == rows;
  }

  /** On disk, lost means missing: of a clean log with no write under way, whose newest row is unlike any
      before it, that row is absent from the file exactly if the last version was lost. */
  lemma LostRowIsMissing(c: Config, rows: seq<Entry>, now: int, actions: seq<Action>)
    requires var s := Run(c, Start(c, rows, now), actions); var n := |s.r.history|;
             && Idle(s) && !s.v.dirty && |rows| < n
             && s.r.history[n - 1] in s.v.logs && s.r.history[n - 1] !in s.r.history[..n - 1]
    ensures var s := Run(c, Start(c, rows, now), actions);
            s.r.lost <==> s.r.history[|s.r.history| - 1] !in s.file
  {
    EveryRunCoherent(c, rows, now, actions);
    EveryRunTraced(c, rows, now, actions);
    hide Run, Coherent;
    var s := Run(c, Start(c, rows, now), actions);
    LostExactly(c, rows, now, actions);
    var n, base := |s.r.history|, |Start(c, rows, now).r.versions| - 1;
    var m := Reach(|rows|, base, s.r.saved);
    if s.r.lost {
      assert Reaches(s.r.versions[s.r.saved], s.r.history, m) && m < n;
      assert s.r.history[..n - 1][..m] == s.r.history[..m];
    }
  }

  /** What is lost stays lost: from then on neither the log nor the file changes. */
  lemma {:induction false} LostForGood(c: Config, s: State, actions: seq<Action>)
    requires Coherent(c, s) && s.r.lost
    ensures var t := Run(c, s, actions);
            Coherent(c, t) && t.r == s.r && t.file == s.file && t.v == s.v
  {
    if actions != [] {
      var before := actions[..|actions| - 1];
      LostForGood(c, s, before);
      StepCoherent(c, Run(c, s, before), actions[|actions| - 1]);
    }
  }

  /** A row that is being written when the store closes is not on disk afterwards if that write fails:
      also when it failed before closing and is only reported after. */
  lemma FailureReportedAfterCloseIsLost(c: Config, rows: seq<Entry>, now: int, e: Entry)
    requires c.maxRows > |rows| && c.retention <= 0
    ensures var s := Run(c, Start(c, rows, now), [AppendRow(e, now), Tick, WriteFailed, Close, SayFailed, Stop]);
            s.phase.Stopped? && s.v.logs == rows + [e] && s.file == rows
  {
    var actions := [AppendRow(e, now), Tick, WriteFailed, Close, SayFailed, Stop];
    var s0 := Start(c, rows, now);
    assert actions[..5] == [AppendRow(e, now), Tick, WriteFailed, Close, SayFailed];
    assert actions[..5][..4] == [AppendRow(e, now), Tick, WriteFailed, Close];
    assert actions[..5][..4][..3] == [AppendRow(e, now), Tick, WriteFailed];
    assert actions[..5][..4][..3][..2] == [AppendRow(e, now), Tick];
    assert actions[..5][..4][..3][..2][..1] == [AppendRow(e, now)];
    assert actions[..5][..4][..3][..2][..1][..0] == [];
    var s1 := Next(c, s0, AppendRow(e, now));
    assert s1.v == Locked(rows + [e], true, false);
    assert Run(c, s0, [AppendRow(e, now)]) == s1;
    var s2 := Next(c, s1, Tick);
    assert Run(c, s0, [AppendRow(e, now), Tick]) == s2;
    var s3 := Next(c, s2, WriteFailed);
    assert Run(c, s0, actions[..5][..4][..3]) == s3;
    var s4 := Next(c, s3, Close);
    assert Run(c, s0, actions[..5][..4]) == s4;
    var s5 := Next(c, s4, SayFailed);
    assert Run(c, s0, actions[..5]) == s5;
  }
}
