/// What the stepper promises: who acts, when it stops, what a step changes,
/// and the shape of the records runFullSimulation returns.
module EngineProperties {
  import opened Members
  import opened Engine

  /// +Infinity is the minimum exactly when no member moves forward.
  lemma NoMemberCanAct(ms: seq<Member>)
    ensures MinTime(Times(ms)) == Infinity <==> forall j :: 0 <= j < |ms| ==> ms[j].currentSpeed <= 0.0
  {
    var ts := Times(ms);
    MinTimeIsLeast(ts);
    if exists j :: 0 <= j < |ms| && ms[j].currentSpeed > 0.0 {
      var j :| 0 <= j < |ms| && ms[j].currentSpeed > 0.0;
      assert Le(MinTime(ts), ts[j]);
    }
  }

  /// The member that acts is the first one, in roster order, whose time to
  /// its next action is the minimum: every member before it is strictly later.
  lemma TriggererIsFirstMinimum(ms: seq<Member>, clock: real)
    requires NextStep(ms, clock).Commit?
    ensures var s := NextStep(ms, clock);
      s.actor < |ms| &&
      TimeToNextAction(ms[s.actor]) == Finite(s.dt) &&
      (forall j :: 0 <= j < |ms| ==> Le(Finite(s.dt), TimeToNextAction(ms[j]))) &&
      (forall j :: 0 <= j < s.actor ==> !Le(TimeToNextAction(ms[j]), Finite(s.dt)))
  {
    var ts := Times(ms);
    var m := MinTime(ts);
    var k := IndexOf(ts, m);
    TimesAt(ms);
    MinTimeIsLeast(ts);
    IndexOfFirst(ts, m);
    forall j | 0 <= j < k
      ensures !Le(TimeToNextAction(ms[j]), m)
    {
      assert ts[j] != m && Le(m, ts[j]);
    }
  }

  /// The loop body stops without committing exactly when the minimum is
  /// +Infinity, lies strictly between 0 and Epsilon, or would carry the clock
  /// past the horizon; a minimum of exactly 0 is committed.
  lemma HaltRule(ms: seq<Member>, clock: real)
    ensures var m := MinTime(Times(ms));
      NextStep(ms, clock) == Halt <==>
        (m == Infinity || (0.0 < m.value < Epsilon) || clock + m.value > TotalSimulationTime)
    ensures MinTime(Times(ms)) == Finite(0.0) && clock <= TotalSimulationTime ==>
      NextStep(ms, clock).Commit? && NextStep(ms, clock).dt == 0.0
  {
    var ts := Times(ms);
    var m := MinTime(ts);
    MinTimeIsLeast(ts);
    if m.Finite? {
      var j :| 0 <= j < |ts| && ts[j] == m;
      assert m == TimeToNextAction(ms[j]);
    }
  }

  /// A committed step is at least Epsilon long or exactly 0, and ends at or
  /// before the horizon.
  lemma StepTiming(ms: seq<Member>, clock: real)
    requires NextStep(ms, clock).Commit?
    ensures var s := NextStep(ms, clock);
      0.0 <= s.dt && (s.dt == 0.0 || s.dt >= Epsilon) && clock + s.dt <= TotalSimulationTime
  {
    var ts := Times(ms);
    var m := MinTime(ts);
    MinTimeIsLeast(ts);
    var j :| 0 <= j < |ts| && ts[j] == m;
    assert m == TimeToNextAction(ms[j]);
  }

  /// What one committed step does to the roster. The actor starts a new
  /// cycle. Every other member covers currentSpeed * dt more and is set to
  /// exactly its action distance when it is then within Epsilon of it. No
  /// member's name or speeds change.
  lemma StepEffect(ms: seq<Member>, clock: real)
    requires NextStep(ms, clock).Commit?
    ensures var s := NextStep(ms, clock);
      && |s.next| == |ms| && s.actor < |ms|
      && s.next[s.actor].distanceCovered == 0.0 && s.next[s.actor].deltaDistance == 0.0
      && (forall j :: 0 <= j < |ms| ==> SameSettings(s.next[j], ms[j]))
      && (forall j :: 0 <= j < |ms| && j != s.actor ==>
            s.next[j].deltaDistance == ms[j].deltaDistance &&
            s.next[j].distanceCovered ==
              if RawRemaining(ms[j]) - ms[j].currentSpeed * s.dt <= Epsilon
              then ActionDistance + ms[j].deltaDistance
              else ms[j].distanceCovered + ms[j].currentSpeed * s.dt)
  {
    var s := NextStep(ms, clock);
    var advanced := Advance(ms, s.dt);
    assert s.next == advanced[s.actor := ResetActor(advanced[s.actor])];
    forall j | 0 <= j < |ms|
      ensures SameSettings(s.next[j], ms[j])
    {
    }
    forall j | 0 <= j < |ms| && j != s.actor
      ensures s.next[j] == AdvanceMember(ms[j], s.dt)
    {
    }
  }

  /// The state the loop is in before it pushes record `i` of `acts`.
  function StateBefore(ms: seq<Member>, clock: real, acts: seq<Record>, i: nat): (seq<Member>, real)
    requires i <= |acts|
  {
    if i == 0 then (ms, clock) else (acts[i - 1].snapshot, acts[i - 1].time)
  }

  /// Past the first record, the states before the records of `[r] + rest`
  /// are those of `rest` started from the state `r` leaves.
  lemma StateBeforeShift(ms: seq<Member>, clock: real, r: Record, rest: seq<Record>)
    ensures forall i :: 1 <= i <= |rest| + 1 ==>
      StateBefore(ms, clock, [r] + rest, i) == StateBefore(r.snapshot, r.time, rest, i - 1)
  {
    var acts := [r] + rest;
    forall i | 1 <= i <= |acts|
      ensures StateBefore(ms, clock, acts, i) == StateBefore(r.snapshot, r.time, rest, i - 1)
    {
      if i > 1 {
        assert acts[i - 1] == rest[i - 2];
      }
    }
  }

  /// Record `r` is what the loop pushes when it commits a step from roster
  /// `pm` at clock `pt`.
  predicate Pushed(pm: seq<Member>, pt: real, r: Record) {
    pt < TotalSimulationTime &&
    var s := NextStep(pm, pt);
    s.Commit? && r.time == pt + s.dt && r.triggerer == s.actor && r.snapshot == s.next
  }

  /// The loop stops in state (`fm`, `ft`).
  predicate Stopped(fm: seq<Member>, ft: real) {
    ft >= TotalSimulationTime || NextStep(fm, ft) == Halt
  }

  /// Every record the loop pushes is the step committed from the state the
  /// previous record left (or from the start), and the loop ends in a state
  /// from which no step is committed before the horizon.
  lemma {:induction false} LoopIsStepChain(ms: seq<Member>, clock: real)
    decreases Measure(clock), DueCount(ms)
    ensures var acts := ActionLoop(ms, clock).actions;
      (forall i :: 0 <= i < |acts| ==>
        Pushed(StateBefore(ms, clock, acts, i).0, StateBefore(ms, clock, acts, i).1, acts[i])) &&
      Stopped(StateBefore(ms, clock, acts, |acts|).0, StateBefore(ms, clock, acts, |acts|).1)
  {
    if clock < TotalSimulationTime && NextStep(ms, clock).Commit? {
      var s := NextStep(ms, clock);
      var later := clock + s.dt;
      StepProgress(ms, clock);
      ActionLoopUnfold(ms, clock, s.dt, s.actor, s.next, later);
      LoopIsStepChain(s.next, later);
      var acts := ActionLoop(ms, clock).actions;
      var rest := ActionLoop(s.next, later).actions;
      var r := ActionRecord(later, s.actor, s.next);
      assert acts == [r] + rest;
      StateBeforeShift(ms, clock, r, rest);
      forall i | 0 <= i < |acts|
        ensures Pushed(StateBefore(ms, clock, acts, i).0, StateBefore(ms, clock, acts, i).1, acts[i])
      {
        if i > 0 {
          assert acts[i] == rest[i - 1];
        }
      }
    }
  }

  /// A list of records whose every record is no earlier than the one
  /// before it is in time order.
  lemma {:induction false} SortedByNeighbours(acts: seq<Record>)
    requires forall i :: 0 < i < |acts| ==> acts[i - 1].time <= acts[i].time
    ensures forall i, j :: 0 <= i <= j < |acts| ==> acts[i].time <= acts[j].time
  {
    if |acts| > 1 {
      SortedByNeighbours(acts[1..]);
      forall j | 0 < j < |acts|
        ensures acts[0].time <= acts[j].time
      {
        assert acts[1..][0] == acts[1] && acts[1..][j - 1] == acts[j];
        assert acts[1].time <= acts[j].time;
      }
      forall i, j | 0 < i <= j < |acts|
        ensures acts[i].time <= acts[j].time
      {
        assert acts[1..][i - 1] == acts[i] && acts[1..][j - 1] == acts[j];
      }
    }
  }

  /// A pushed record is no earlier than the clock it was pushed from and no
  /// later than the horizon.
  lemma PushedTiming(pm: seq<Member>, pt: real, r: Record)
    requires Pushed(pm, pt, r)
    ensures pt <= r.time <= TotalSimulationTime
  {
    StepTiming(pm, pt);
  }

  /// The loop's records are in time order, none before the clock it started
  /// from and none after the horizon.
  lemma LoopTimes(ms: seq<Member>, clock: real)
    ensures var acts := ActionLoop(ms, clock).actions;
      (forall i :: 0 <= i < |acts| ==> clock <= acts[i].time <= TotalSimulationTime) &&
      (forall i, j :: 0 <= i <= j < |acts| ==> acts[i].time <= acts[j].time)
  {
    LoopIsStepChain(ms, clock);
    ChainTimes(ms, clock, ActionLoop(ms, clock).actions);
  }

  /// Records pushed one after the other from `clock` on are in time order,
  /// none before `clock` and none after the horizon.
  lemma ChainTimes(ms: seq<Member>, clock: real, acts: seq<Record>)
    requires forall i :: 0 <= i < |acts| ==>
      Pushed(StateBefore(ms, clock, acts, i).0, StateBefore(ms, clock, acts, i).1, acts[i])
    ensures forall i :: 0 <= i < |acts| ==> clock <= acts[i].time <= TotalSimulationTime
    ensures forall i, j :: 0 <= i <= j < |acts| ==> acts[i].time <= acts[j].time
  {
    forall i | 0 <= i < |acts|
      ensures StateBefore(ms, clock, acts, i).1 <= acts[i].time <= TotalSimulationTime
    {
      PushedTiming(StateBefore(ms, clock, acts, i).0, StateBefore(ms, clock, acts, i).1, acts[i]);
    }
    forall i | 0 < i < |acts|
      ensures acts[i - 1].time <= acts[i].time
    {
      assert StateBefore(ms, clock, acts, i).1 == acts[i - 1].time;
    }
    SortedByNeighbours(acts);
    if |acts| > 0 {
      assert StateBefore(ms, clock, acts, 0).1 == clock;
    }
  }

  /// Record `r` is an action of a member of roster `ms`: it names that
  /// member, shows it at the start of a new cycle, and shows every member with
  /// the name and speeds it has in `ms`.
  predicate IsActionOf(r: Record, ms: seq<Member>) {
    && r.kind == SpecialAction
    && 0 <= r.triggerer < |ms|
    && |r.snapshot| == |ms|
    && r.triggererName == ms[r.triggerer].name
    && r.snapshot[r.triggerer].distanceCovered == 0.0
    && r.snapshot[r.triggerer].deltaDistance == 0.0
    && (forall j :: 0 <= j < |ms| ==> SameSettings(r.snapshot[j], ms[j]))
  }

  lemma ActionOfCarries(r: Record, next: seq<Member>, ms: seq<Member>)
    requires IsActionOf(r, next) && |next| == |ms|
    requires forall j :: 0 <= j < |ms| ==> SameSettings(next[j], ms[j])
    ensures IsActionOf(r, ms)
  {
  }

  /// Each record of the loop is an action of a member of the roster it
  /// started from.
  lemma {:induction false} LoopRecords(ms: seq<Member>, clock: real)
    decreases Measure(clock), DueCount(ms)
    ensures var acts := ActionLoop(ms, clock).actions;
      forall i :: 0 <= i < |acts| ==> IsActionOf(acts[i], ms)
  {
    if clock < TotalSimulationTime && NextStep(ms, clock).Commit? {
      var s := NextStep(ms, clock);
      var later := clock + s.dt;
      StepProgress(ms, clock);
      StepEffect(ms, clock);
      ActionLoopUnfold(ms, clock, s.dt, s.actor, s.next, later);
      LoopRecords(s.next, later);
      var acts := ActionLoop(ms, clock).actions;
      var rest := ActionLoop(s.next, later).actions;
      forall i | 0 <= i < |acts|
        ensures IsActionOf(acts[i], ms)
      {
        if i > 0 {
          assert acts[i] == rest[i - 1];
          ActionOfCarries(rest[i - 1], s.next, ms);
        }
      }
    }
  }

  /// What runFullSimulation returns: the loop's action records, followed by
  /// the terminal record exactly when the last action lands on the horizon.
  /// Its second terminal branch (script.js:243-251) never fires: a loop that
  /// pushes nothing leaves the clock where it started. From a start at or
  /// after the horizon nothing is returned.
  lemma SimulateEnding(ms: seq<Member>, start: real)
    ensures var acts := ActionLoop(ms, start).actions;
      Simulate(ms, start) ==
        acts + (if |acts| > 0 && acts[|acts| - 1].time == TotalSimulationTime
                then [EndRecord(acts[|acts| - 1].snapshot)] else [])
    ensures start >= TotalSimulationTime ==> Simulate(ms, start) == []
  {
    var acts := ActionLoop(ms, start).actions;
    if |acts| > 0 {
      LoopLast(ms, start);
    }
  }

  /// The loop's last record is an action, no later than the horizon, and
  /// the loop's clock stops at its time.
  lemma LoopLast(ms: seq<Member>, start: real)
    requires |ActionLoop(ms, start).actions| > 0
    ensures var loop := ActionLoop(ms, start);
      var last := loop.actions[|loop.actions| - 1];
      last.kind == SpecialAction && loop.clock == last.time <= TotalSimulationTime
  {
    var acts := ActionLoop(ms, start).actions;
    LoopTimes(ms, start);
    LoopRecords(ms, start);
    assert IsActionOf(acts[|acts| - 1], ms);
  }

  /// The records runFullSimulation returns are in time order, none before the
  /// start and none after the horizon.
  lemma SimulateTimes(ms: seq<Member>, start: real)
    ensures var sim := Simulate(ms, start);
      (forall i :: 0 <= i < |sim| ==> start <= sim[i].time <= TotalSimulationTime) &&
      (forall i, j :: 0 <= i <= j < |sim| ==> sim[i].time <= sim[j].time)
  {
    var acts := ActionLoop(ms, start).actions;
    var sim := Simulate(ms, start);
    SimulateEnding(ms, start);
    LoopTimes(ms, start);
    if |sim| > |acts| {
      assert sim[|sim| - 1].time == TotalSimulationTime;
      forall i | 0 <= i < |sim|
        ensures start <= sim[i].time <= TotalSimulationTime
      {
        if i < |acts| {
          assert sim[i] == acts[i];
        }
      }
      forall i, j | 0 <= i <= j < |sim|
        ensures sim[i].time <= sim[j].time
      {
        if j < |acts| {
          assert sim[i] == acts[i] && sim[j] == acts[j];
        } else {
          assert sim[i].time <= TotalSimulationTime;
        }
      }
    }
  }

  /// Every record runFullSimulation returns is an action of a member of the
  /// roster it was given, except a terminal record, which comes last, after an
  /// action, and shows the roster of that action.
  lemma SimulateRecords(ms: seq<Member>, start: real)
    ensures var sim := Simulate(ms, start);
      forall i :: 0 <= i < |sim| ==>
        IsActionOf(sim[i], ms) ||
        (0 < i == |sim| - 1 && sim[i] == EndRecord(sim[i - 1].snapshot) && IsActionOf(sim[i - 1], ms))
  {
    var acts := ActionLoop(ms, start).actions;
    var sim := Simulate(ms, start);
    SimulateEnding(ms, start);
    LoopRecords(ms, start);
    forall i | 0 <= i < |sim|
      ensures IsActionOf(sim[i], ms) ||
        (0 < i == |sim| - 1 && sim[i] == EndRecord(sim[i - 1].snapshot) && IsActionOf(sim[i - 1], ms))
    {
      if i < |acts| {
        assert sim[i] == acts[i];
      } else {
        assert sim[i - 1] == acts[|acts| - 1];
      }
    }
  }
}
