/// The turn-order stepper (script.js:190-253): starting from a roster and a
/// clock, repeatedly let the member with the smallest time to its next action
/// act, until no member can act before the horizon.
module Engine {
  import opened Members

  /// Length of a simulation in seconds.
  const TotalSimulationTime: real := 1500.0

  /// Name shown in the triggerer column of records that have no triggerer.
  const NoTriggererName: string := "无"

  /// The three kinds of row: the initial state, a member's action, and the
  /// marker that the horizon was reached.
  datatype EventKind = InitialState | SpecialAction | SimulationEnded

  /// One row of the history. `triggerer` is the acting member's index, or -1.
  datatype Record = Record(
    time: real,
    kind: EventKind,
    triggererName: string,
    triggerer: int,
    snapshot: seq<Member>)

  /// The terminal row: at the horizon, without a triggerer.
  function EndRecord(snapshot: seq<Member>): Record {
    Record(TotalSimulationTime, SimulationEnded, NoTriggererName, -1, snapshot)
  }

  /// Every member's time to its next action, in roster order.
  function Times(ms: seq<Member>): seq<Time> {
    seq(|ms|, i requires 0 <= i < |ms| => TimeToNextAction(ms[i]))
  }

  /// Each entry of Times is its member's time.
  lemma TimesAt(ms: seq<Member>)
    ensures |Times(ms)| == |ms|
    ensures forall i :: 0 <= i < |ms| ==> Times(ms)[i] == TimeToNextAction(ms[i])
  {
  }

  /// The order on time values, with +Infinity above every number.
  predicate Le(a: Time, b: Time) {
    match b
    case Infinity => true
    case Finite(y) => a.Finite? && a.value <= y
  }

  /// Math.min of two time values.
  function Min(a: Time, b: Time): Time {
    if Le(a, b) then a else b
  }

  /// Math.min over a list of time values; +Infinity for the empty list.
  function MinTime(ts: seq<Time>): Time {
    if |ts| == 0 then Infinity else Min(ts[0], MinTime(ts[1..]))
  }

  /// MinTime is a least element of a non-empty list, and +Infinity for the
  /// empty one.
  lemma {:induction false} MinTimeIsLeast(ts: seq<Time>)
    ensures forall i :: 0 <= i < |ts| ==> Le(MinTime(ts), ts[i])
    ensures |ts| > 0 ==> MinTime(ts) in ts
    ensures |ts| == 0 ==> MinTime(ts) == Infinity
  {
    if |ts| > 0 {
      MinTimeIsLeast(ts[1..]);
      forall i | 1 <= i < |ts|
        ensures Le(MinTime(ts), ts[i])
      {
        assert ts[1..][i - 1] == ts[i];
      }
    }
  }

  /// Array.prototype.indexOf: the first position holding `x`, or -1.
  function IndexOf(ts: seq<Time>, x: Time): int {
    if |ts| == 0 then -1
    else if ts[0] == x then 0
    else
      var k := IndexOf(ts[1..], x);
      if k < 0 then -1 else k + 1
  }

  /// IndexOf finds the first occurrence, and -1 when there is none.
  lemma {:induction false} IndexOfFirst(ts: seq<Time>, x: Time)
    ensures x in ts ==> 0 <= IndexOf(ts, x) < |ts| && ts[IndexOf(ts, x)] == x
    ensures x in ts ==> forall j :: 0 <= j < IndexOf(ts, x) ==> ts[j] != x
    ensures x !in ts ==> IndexOf(ts, x) == -1
  {
    if |ts| > 0 && ts[0] != x {
      IndexOfFirst(ts[1..], x);
      assert x in ts <==> x in ts[1..];
      if x in ts {
        var k := IndexOf(ts[1..], x);
        forall j | 1 <= j <= k
          ensures ts[j] != x
        {
          assert ts[j] == ts[1..][j - 1];
        }
      }
    }
  }

  /// When some member can act, indexOf finds the minimum inside the roster.
  lemma TriggererInRoster(ms: seq<Member>)
    requires MinTime(Times(ms)).Finite?
    ensures 0 <= IndexOf(Times(ms), MinTime(Times(ms))) < |ms|
  {
    MinTimeIsLeast(Times(ms));
    IndexOfFirst(Times(ms), MinTime(Times(ms)));
  }

  /// The snap rule's test: the member has (nearly) finished its distance.
  predicate NearlyDone(m: Member) {
    RawRemaining(m) <= Epsilon
  }

  /// One member after the clock moved on by `dt` (script.js:210-219): it
  /// covers currentSpeed * dt more, and a member that is then (nearly) done is
  /// set to exactly the distance its action needs.
  function AdvanceMember(m: Member, dt: real): Member {
    var moved := if dt > 0.0 then m.(distanceCovered := m.distanceCovered + m.currentSpeed * dt) else m;
    if NearlyDone(moved) then moved.(distanceCovered := ActionDistance + moved.deltaDistance)
    else moved
  }

  /// The whole roster after the clock moved on by `dt`.
  function Advance(ms: seq<Member>, dt: real): seq<Member> {
    seq(|ms|, i requires 0 <= i < |ms| => AdvanceMember(ms[i], dt))
  }

  /// The acting member starts a fresh cycle (script.js:223-224).
  function ResetActor(m: Member): Member {
    m.(distanceCovered := 0.0, deltaDistance := 0.0)
  }

  /// The outcome of one pass of the stepper loop: it stops, or it commits a
  /// step of length `dt` in which member `actor` acts, leaving roster `next`.
  datatype Step = Halt | Commit(dt: real, actor: nat, next: seq<Member>)

  /// One pass of the loop body (script.js:196-224) from roster `ms` at `clock`.
  function NextStep(ms: seq<Member>, clock: real): (s: Step)
    ensures s.Commit? ==> s.actor < |s.next| == |ms|
  {
    var ts := Times(ms);
    var m := MinTime(ts);
    var k := IndexOf(ts, m);
    if m.Infinity? || (m.value < Epsilon && m.value != 0.0) then Halt
    else if clock + m.value > TotalSimulationTime then Halt
    else
      TriggererInRoster(ms);
      var advanced := Advance(ms, m.value);
      Commit(m.value, k, advanced[k := ResetActor(advanced[k])])
  }

  /// The record pushed for a committed step (script.js:226-232).
  function ActionRecord(time: real, actor: nat, next: seq<Member>): Record
    requires actor < |next|
  {
    Record(time, SpecialAction, next[actor].name, actor, next)
  }

  // ---------------------------------------------------------------------
  // Termination: a committed step either moves the clock on by at least
  // Epsilon, or has length zero and retires one member that was due.
  // ---------------------------------------------------------------------

  /// How many Epsilon-long steps still fit before the horizon.
  function Measure(clock: real): nat {
    if clock >= TotalSimulationTime then 0
    else ((TotalSimulationTime - clock) / Epsilon).Floor
  }

  /// How many members are (nearly) done.
  function DueCount(ms: seq<Member>): nat {
    if ms == [] then 0 else (if NearlyDone(ms[0]) then 1 else 0) + DueCount(ms[1..])
  }

  lemma {:induction false} DueCountPointwise(a: seq<Member>, b: seq<Member>)
    requires |a| == |b|
    requires forall i :: 0 <= i < |a| ==> (NearlyDone(a[i]) <==> NearlyDone(b[i]))
    ensures DueCount(a) == DueCount(b)
  {
    if a != [] {
      DueCountPointwise(a[1..], b[1..]);
    }
  }

  lemma {:induction false} DueCountRetire(a: seq<Member>, k: nat, m: Member)
    requires k < |a| && NearlyDone(a[k]) && !NearlyDone(m)
    ensures DueCount(a[k := m]) + 1 == DueCount(a)
  {
    if k > 0 {
      DueCountRetire(a[1..], k - 1, m);
      assert a[k := m][1..] == a[1..][k - 1 := m];
    }
  }

  lemma MeasureShrinks(clock: real, dt: real)
    requires clock < TotalSimulationTime && Epsilon <= dt && clock + dt <= TotalSimulationTime
    ensures Measure(clock + dt) < Measure(clock)
  {
    var a := (TotalSimulationTime - clock) / Epsilon;
    var b := (TotalSimulationTime - (clock + dt)) / Epsilon;
    assert b + 1.0 <= a;
    assert 1.0 <= a;
  }

  /// Every committed step moves the clock on by at least Epsilon, or leaves
  /// the clock where it is and lowers the number of members that are due.
  lemma StepProgress(ms: seq<Member>, clock: real)
    requires clock < TotalSimulationTime && NextStep(ms, clock).Commit?
    ensures var s := NextStep(ms, clock);
      (s.dt >= Epsilon && Measure(clock + s.dt) < Measure(clock))
      || (s.dt == 0.0 && clock + s.dt == clock && DueCount(s.next) < DueCount(ms))
  {
    var s := NextStep(ms, clock);
    var ts := Times(ms);
    var k := s.actor;
    MinTimeIsLeast(ts);
    IndexOfFirst(ts, MinTime(ts));
    if s.dt >= Epsilon {
      MeasureShrinks(clock, s.dt);
    } else {
      assert ts[k] == Finite(0.0);
      var advanced := Advance(ms, 0.0);
      DueCountPointwise(ms, advanced);
      DueCountRetire(advanced, k, ResetActor(advanced[k]));
    }
  }

  // ---------------------------------------------------------------------
  // The loop and the whole simulation, as functions.
  // ---------------------------------------------------------------------

  /// What the stepper loop leaves behind: the action records it pushed and
  /// the clock it stopped at.
  datatype LoopResult = LoopResult(actions: seq<Record>, clock: real)

  /// The stepper loop (script.js:195-233) from roster `ms` at `clock`.
  function ActionLoop(ms: seq<Member>, clock: real): (r: LoopResult)
    decreases Measure(clock), DueCount(ms)
    ensures r.actions == [] ==> r.clock == clock
    ensures r.actions != [] ==> r.clock == r.actions[|r.actions| - 1].time
  {
    if clock >= TotalSimulationTime then LoopResult([], clock)
    else match NextStep(ms, clock)
      case Halt => LoopResult([], clock)
      case Commit(dt, k, next) =>
        StepProgress(ms, clock);
        var rest := ActionLoop(next, clock + dt);
        LoopResult([ActionRecord(clock + dt, k, next)] + rest.actions, rest.clock)
  }

  /// One committed pass of the loop followed by the rest of the loop.
  lemma ActionLoopUnfold(ms: seq<Member>, clock: real, dt: real, k: nat, next: seq<Member>, later: real)
    requires clock < TotalSimulationTime && NextStep(ms, clock) == Commit(dt, k, next) && later == clock + dt
    ensures k < |next|
    ensures ActionLoop(ms, clock).actions == [ActionRecord(later, k, next)] + ActionLoop(next, later).actions
    ensures ActionLoop(ms, clock).clock == ActionLoop(next, later).clock
  {
    var rest := ActionLoop(next, later);
    assert ActionLoop(ms, clock) == LoopResult([ActionRecord(later, k, next)] + rest.actions, rest.clock);
  }

  /// The loop body, as runFullSimulation computes it, commits the step that
  /// NextStep describes; the loop's remaining records follow that step's
  /// record, and the loop's measure goes down.
  lemma LoopBodyCommits(ms: seq<Member>, clock: real, dt: real, k: int, advanced: seq<Member>, next: seq<Member>, later: real,
                        records: seq<Record>, whole: seq<Record>)
    requires clock < TotalSimulationTime && later == clock + dt
    requires MinTime(Times(ms)) == Finite(dt) && k == IndexOf(Times(ms), Finite(dt))
    requires !(dt < Epsilon && dt != 0.0) && clock + dt <= TotalSimulationTime
    requires advanced == Advance(ms, dt)
    requires 0 <= k < |advanced| && next == advanced[k := ResetActor(advanced[k])]
    requires records + ActionLoop(ms, clock).actions == whole
    ensures k < |next|
    ensures (records + [ActionRecord(later, k, next)]) + ActionLoop(next, later).actions == whole
    ensures ActionLoop(ms, clock).clock == ActionLoop(next, later).clock
    ensures Measure(later) < Measure(clock) || (Measure(later) == Measure(clock) && DueCount(next) < DueCount(ms))
  {
    LoopBodyIsNextStep(ms, clock, dt, k, advanced, next);
    CommitPushes(ms, clock, dt, k, next, later, records, whole);
  }

  /// What the loop body computes is the step NextStep commits.
  lemma LoopBodyIsNextStep(ms: seq<Member>, clock: real, dt: real, k: int, advanced: seq<Member>, next: seq<Member>)
    requires MinTime(Times(ms)) == Finite(dt) && k == IndexOf(Times(ms), Finite(dt))
    requires !(dt < Epsilon && dt != 0.0) && clock + dt <= TotalSimulationTime
    requires advanced == Advance(ms, dt)
    requires 0 <= k < |advanced| && next == advanced[k := ResetActor(advanced[k])]
    ensures NextStep(ms, clock) == Commit(dt, k, next)
  {
  }

  /// A committed step pushes its record in front of the rest of the loop
  /// and lowers the loop's measure.
  lemma CommitPushes(ms: seq<Member>, clock: real, dt: real, k: nat, next: seq<Member>, later: real,
                     records: seq<Record>, whole: seq<Record>)
    requires clock < TotalSimulationTime && later == clock + dt
    requires NextStep(ms, clock) == Commit(dt, k, next)
    requires records + ActionLoop(ms, clock).actions == whole
    ensures k < |next|
    ensures (records + [ActionRecord(later, k, next)]) + ActionLoop(next, later).actions == whole
    ensures ActionLoop(ms, clock).clock == ActionLoop(next, later).clock
    ensures Measure(later) < Measure(clock) || (Measure(later) == Measure(clock) && DueCount(next) < DueCount(ms))
  {
    StepProgress(ms, clock);
    ActionLoopUnfold(ms, clock, dt, k, next, later);
    PushFront(records, ActionRecord(later, k, next), ActionLoop(next, later).actions, whole);
  }

  /// Moving a record from the front of the rest onto the end of what is
  /// already pushed keeps the whole.
  lemma PushFront(records: seq<Record>, r: Record, rest: seq<Record>, whole: seq<Record>)
    requires records + ([r] + rest) == whole
    ensures (records + [r]) + rest == whole
  {
    assert (records + [r]) + rest == records + ([r] + rest);
  }

  /// The loop body, as runFullSimulation computes it, stops: the loop pushes
  /// nothing more and keeps its clock.
  lemma LoopBodyHalts(ms: seq<Member>, clock: real)
    requires clock < TotalSimulationTime
    requires var m := MinTime(Times(ms));
      m == Infinity || (m.value < Epsilon && m.value != 0.0) || clock + m.value > TotalSimulationTime
    ensures ActionLoop(ms, clock) == LoopResult([], clock)
  {
    assert NextStep(ms, clock) == Halt;
  }

  /// The records runFullSimulation returns (script.js:190-253).
  function Simulate(initial: seq<Member>, startTime: real): seq<Record> {
    var loop := ActionLoop(initial, startTime);
    var records := loop.actions;
    if loop.clock >= TotalSimulationTime && |records| > 0 && records[|records| - 1].kind != SimulationEnded then
      records + [EndRecord(records[|records| - 1].snapshot)]
    else if loop.clock >= TotalSimulationTime && |records| == 0 && startTime < TotalSimulationTime then
      [EndRecord(initial)]
    else
      records
  }

  /// The for loop of script.js:210-219: every member moves on by `dt`, in
  /// place, and is snapped to its action distance when it is (nearly) done.
  method AdvanceAll(before: seq<Member>, dt: real) returns (membersState: seq<Member>)
    ensures membersState == Advance(before, dt)
  {
    membersState := before;
    for i := 0 to |membersState|
      invariant |membersState| == |before|
      invariant forall j :: 0 <= j < i ==> membersState[j] == AdvanceMember(before[j], dt)
      invariant forall j :: i <= j < |membersState| ==> membersState[j] == before[j]
    {
      var m := membersState[i];
      if dt > 0.0 {
        m := m.(distanceCovered := m.distanceCovered + m.currentSpeed * dt);
      }
      var effectiveRemaining := ActionDistance - m.distanceCovered + m.deltaDistance;
      if effectiveRemaining <= Epsilon {
        m := m.(distanceCovered := ActionDistance + m.deltaDistance);
      }
      assert m == AdvanceMember(before[i], dt);
      membersState := membersState[i := m];
    }
  }

  /// The while loop of runFullSimulation (script.js:192-233), over a
  /// private copy of the roster: the records it pushes and the clock it
  /// stops at.
  method RunActions(initialMembersState: seq<Member>, startTime: real) returns (records: seq<Record>, currentSimulationTime: real)
    ensures records == ActionLoop(initialMembersState, startTime).actions
    ensures currentSimulationTime == ActionLoop(initialMembersState, startTime).clock
  {
    records := [];
    var membersState := initialMembersState;
    currentSimulationTime := startTime;
    ghost var whole := ActionLoop(initialMembersState, startTime);

    while currentSimulationTime < TotalSimulationTime
      invariant records + ActionLoop(membersState, currentSimulationTime).actions == whole.actions
      invariant ActionLoop(membersState, currentSimulationTime).clock == whole.clock
      decreases Measure(currentSimulationTime), DueCount(membersState)
    {
      var nextActionTimes := Times(membersState);
      var timeToNextAction := MinTime(nextActionTimes);
      var triggeringMemberIndex := IndexOf(nextActionTimes, timeToNextAction);

      if timeToNextAction == Infinity || (timeToNextAction.value < Epsilon && timeToNextAction.value != 0.0) {
        LoopBodyHalts(membersState, currentSimulationTime);
        break;
      }
      var dt := timeToNextAction.value;
      if currentSimulationTime + dt > TotalSimulationTime {
        LoopBodyHalts(membersState, currentSimulationTime);
        break;
      }

      ghost var before, clockBefore := membersState, currentSimulationTime;
      membersState := AdvanceAll(membersState, dt);
      ghost var advanced := membersState;
      currentSimulationTime := currentSimulationTime + dt;

      TriggererInRoster(before);
      var actor := membersState[triggeringMemberIndex];
      membersState := membersState[triggeringMemberIndex := actor.(distanceCovered := 0.0, deltaDistance := 0.0)];
      LoopBodyCommits(before, clockBefore, dt, triggeringMemberIndex, advanced, membersState, currentSimulationTime,
                      records, whole.actions);
      records := records + [ActionRecord(currentSimulationTime, triggeringMemberIndex, membersState)];
    }
    if currentSimulationTime >= TotalSimulationTime {
      assert ActionLoop(membersState, currentSimulationTime) == LoopResult([], currentSimulationTime);
    }
    assert records + [] == records;
  }

  /// runFullSimulation (script.js:190-253): the loop, then the optional
  /// terminal record. The roster is a value, so the caller's copy is never
  /// changed and every record holds its own snapshot.
  method RunFullSimulation(initialMembersState: seq<Member>, startTime: real) returns (records: seq<Record>)
    ensures records == Simulate(initialMembersState, startTime)
  {
    var currentSimulationTime;
    records, currentSimulationTime := RunActions(initialMembersState, startTime);
    if currentSimulationTime >= TotalSimulationTime && |records| > 0 && records[|records| - 1].kind != SimulationEnded {
      records := records + [EndRecord(records[|records| - 1].snapshot)];
    } else if currentSimulationTime >= TotalSimulationTime && |records| == 0 && startTime < TotalSimulationTime {
      records := records + [EndRecord(initialMembersState)];
    }
  }
}
