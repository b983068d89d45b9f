/// The simulation history the page keeps (simulationHistory, script.js:10):
/// how it is seeded from the roster form (script.js:255-310), how an edit in
/// row k patches that row and replays everything after it
/// (script.js:324-355), and the checks the two edit handlers make before
/// they ask for the replay (script.js:105-123, 146-168).
module Ledger {
  import opened Members
  import opened Engine
  import opened EngineProperties

  datatype Option<T> = None | Some(value: T)

  datatype Result<T, E> = Ok(value: T) | Err(error: E)

  /// What parseFloat makes of the text of an input field: a number, or NaN.
  datatype Parsed = Number(value: real) | NotANumber

  /// One row of the roster form: the name as typed and the parsed speed.
  datatype MemberInput = MemberInput(name: string, speed: Parsed)

  /// The roster form has exactly four rows, name1..name4 and speed1..speed4.
  const RosterSize: nat := 4

  // ---------------------------------------------------------------------
  // String.prototype.trim
  // ---------------------------------------------------------------------

  /// The characters String.prototype.trim removes: the WhiteSpace and
  /// LineTerminator code points of ECMAScript (section 12.2 and 12.3 of
  /// ECMA-262).
  predicate IsJsWhitespace(c: char) {
    c == '\t' || c == '\n' || c == '\U{000B}' || c == '\U{000C}' || c == '\r' || c == ' ' ||
    c == '\U{00A0}' || c == '\U{1680}' || ('\U{2000}' <= c <= '\U{200A}') ||
    c == '\U{2028}' || c == '\U{2029}' || c == '\U{202F}' || c == '\U{205F}' ||
    c == '\U{3000}' || c == '\U{FEFF}'
  }

  /// `s` without its leading whitespace.
  function TrimStart(s: string): (r: string)
    ensures |r| <= |s| && r == s[|s| - |r|..]
    ensures forall i :: 0 <= i < |s| - |r| ==> IsJsWhitespace(s[i])
    ensures |r| > 0 ==> !IsJsWhitespace(r[0])
  {
    if |s| > 0 && IsJsWhitespace(s[0]) then TrimStart(s[1..]) else s
  }

  /// `s` without its trailing whitespace.
  function TrimEnd(s: string): (r: string)
    ensures |r| <= |s| && r == s[..|r|]
    ensures forall i :: |r| <= i < |s| ==> IsJsWhitespace(s[i])
    ensures |r| > 0 ==> !IsJsWhitespace(r[|r| - 1])
  {
    if |s| > 0 && IsJsWhitespace(s[|s| - 1]) then TrimEnd(s[..|s| - 1]) else s
  }

  /// String.prototype.trim: `s` without leading and trailing whitespace.
  function Trim(s: string): string {
    TrimEnd(TrimStart(s))
  }

  /// The trimmed string is the piece of `s` starting after its leading
  /// whitespace, and everything cut off is whitespace.
  lemma TrimIsSlice(s: string)
    ensures var r := Trim(s);
      var lo := |s| - |TrimStart(s)|;
      lo + |r| <= |s| &&
      (forall i :: 0 <= i < |r| ==> r[i] == s[lo + i]) &&
      (forall i :: 0 <= i < |s| && !(lo <= i < lo + |r|) ==> IsJsWhitespace(s[i]))
  {
    var t := TrimStart(s);
    var r := TrimEnd(t);
    CutBothEnds(s, t, r);
  }

  /// `r` is `s` with whitespace cut off at both ends: first the front, to
  /// give `t`, then the back of `t`.
  lemma CutBothEnds(s: string, t: string, r: string)
    requires |t| <= |s| && t == s[|s| - |t|..] && forall i :: 0 <= i < |s| - |t| ==> IsJsWhitespace(s[i])
    requires |r| <= |t| && r == t[..|r|] && forall i :: |r| <= i < |t| ==> IsJsWhitespace(t[i])
    ensures var lo := |s| - |t|;
      lo + |r| <= |s| &&
      (forall i :: 0 <= i < |r| ==> r[i] == s[lo + i]) &&
      (forall i :: 0 <= i < |s| && !(lo <= i < lo + |r|) ==> IsJsWhitespace(s[i]))
  {
    var lo := |s| - |t|;
    forall i | 0 <= i < |s| && !(lo <= i < lo + |r|)
      ensures IsJsWhitespace(s[i])
    {
      if i >= lo {
        assert s[i] == t[i - lo];
      }
    }
  }

  /// A non-empty trimmed string neither starts nor ends with whitespace.
  lemma TrimEnds(s: string)
    ensures var r := Trim(s);
      |r| > 0 ==> !IsJsWhitespace(r[0]) && !IsJsWhitespace(r[|r| - 1])
  {
    var t := TrimStart(s);
    var r := TrimEnd(t);
    if |r| > 0 {
      assert r[0] == t[0];
    }
  }

  /// The trimmed string is empty exactly when `s` is nothing but
  /// whitespace.
  lemma TrimEmpty(s: string)
    ensures Trim(s) == [] <==> Blank(s)
  {
    TrimIsSlice(s);
    TrimEnds(s);
    var r := Trim(s);
    if |r| > 0 {
      var lo := |s| - |TrimStart(s)|;
      assert r[0] == s[lo];
    }
  }

  // ---------------------------------------------------------------------
  // Building the roster (script.js:264-288)
  // ---------------------------------------------------------------------

  /// Why the roster form is refused: member `number` (counted from 1) has no
  /// name, or the member called `name` has no speed greater than 0.
  datatype InitError = EmptyName(number: nat) | InvalidSpeed(name: string)

  /// Row `i` (counted from 0) of the roster form, as script.js:268-286
  /// checks it and builds the member.
  function CheckMember(i: nat, input: MemberInput): Result<Member, InitError> {
    var name := Trim(input.name);
    if name == [] then Err(EmptyName(i + 1))
    else if input.speed.NotANumber? || input.speed.value <= 0.0 then Err(InvalidSpeed(name))
    else Ok(Member(name, input.speed.value, 0.0, input.speed.value, 0.0, 0.0))
  }

  /// A row is refused exactly when its name is nothing but whitespace or its
  /// speed is not a number greater than 0; an empty name is reported first,
  /// by the row's number counted from 1. An accepted row is a member with
  /// the trimmed name and the given speed as base and current speed, no
  /// speed change, nothing covered and no distance change.
  lemma CheckMemberSpec(i: nat, input: MemberInput)
    ensures CheckMember(i, input).Err? <==> Blank(input.name) || !PositiveSpeed(input.speed)
    ensures Blank(input.name) ==> CheckMember(i, input) == Err(EmptyName(i + 1))
    ensures !Blank(input.name) && !PositiveSpeed(input.speed) ==>
      CheckMember(i, input) == Err(InvalidSpeed(Trim(input.name)))
    ensures CheckMember(i, input).Ok? ==>
      var m := CheckMember(i, input).value;
      m.name == Trim(input.name) && m.baseSpeed == input.speed.value &&
      m.currentSpeed == m.baseSpeed > 0.0 && m.deltaSpeed == 0.0 &&
      m.distanceCovered == 0.0 && m.deltaDistance == 0.0
  {
    TrimEmpty(input.name);
  }

  /// `s` is nothing but whitespace (the empty string included).
  predicate Blank(s: string) {
    forall c :: 0 <= c < |s| ==> IsJsWhitespace(s[c])
  }

  /// A parsed speed that is a number greater than 0.
  predicate PositiveSpeed(p: Parsed) {
    p.Number? && p.value > 0.0
  }

  /// The roster form's rows, each checked on its own.
  function CheckedRows(inputs: seq<MemberInput>): seq<Result<Member, InitError>> {
    seq(|inputs|, i requires 0 <= i < |inputs| => CheckMember(i, inputs[i]))
  }

  /// Checked rows taken in order, as the loop of script.js:264-288 takes
  /// them: the first refused row decides the error, otherwise the members.
  function CollectRoster(rows: seq<Result<Member, InitError>>): Result<seq<Member>, InitError> {
    if |rows| == 0 then Ok([])
    else
      match CollectRoster(rows[..|rows| - 1])
      case Err(e) => Err(e)
      case Ok(ms) =>
        match rows[|rows| - 1]
        case Err(e) => Err(e)
        case Ok(m) => Ok(ms + [m])
  }

  /// The roster the form gives, or why it is refused.
  function ValidateRoster(inputs: seq<MemberInput>): Result<seq<Member>, InitError> {
    CollectRoster(CheckedRows(inputs))
  }

  /// The loop of script.js:264-288: the rows of the form are checked in
  /// order, and the first refused one ends the loop with its error.
  method ReadRoster(inputs: seq<MemberInput>) returns (result: Result<seq<Member>, InitError>)
    ensures result == ValidateRoster(inputs)
  {
    ghost var rows := CheckedRows(inputs);
    var initialMembers: seq<Member> := [];
    for i := 0 to |inputs|
      invariant CollectRoster(rows[..i]) == Ok(initialMembers)
    {
      var checked := CheckMember(i, inputs[i]);
      assert checked == rows[i];
      CollectRosterStep(rows, i, initialMembers);
      if checked.Err? {
        return Err(checked.error);
      }
      initialMembers := initialMembers + [checked.value];
    }
    assert rows[..|inputs|] == rows;
    result := Ok(initialMembers);
  }

  /// The rows are accepted exactly when every row is, and then give the
  /// members of the rows in order.
  lemma {:induction false} CollectRosterAccepts(rows: seq<Result<Member, InitError>>)
    ensures CollectRoster(rows).Ok? <==> forall i :: 0 <= i < |rows| ==> rows[i].Ok?
    ensures CollectRoster(rows).Ok? ==>
      |CollectRoster(rows).value| == |rows| &&
      forall i :: 0 <= i < |rows| ==> CollectRoster(rows).value[i] == rows[i].value
  {
    if |rows| > 0 {
      var n := |rows| - 1;
      var front := rows[..n];
      CollectRosterAccepts(front);
      match CollectRoster(front)
      case Err(e) =>
        var k :| 0 <= k < n && !front[k].Ok?;
        assert front[k] == rows[k];
      case Ok(ms) =>
        match rows[n]
        case Err(e) =>
        case Ok(m) =>
          forall i | 0 <= i < |rows|
            ensures rows[i].Ok? && (ms + [m])[i] == rows[i].value
          {
            if i < n {
              assert front[i] == rows[i];
            }
          }
    }
  }

  /// Refused rows carry the error of the first refused row.
  lemma {:induction false} CollectRosterRefuses(rows: seq<Result<Member, InitError>>)
    requires CollectRoster(rows).Err?
    ensures exists k :: 0 <= k < |rows| && rows[k] == Err(CollectRoster(rows).error) &&
                        forall i :: 0 <= i < k ==> rows[i].Ok?
  {
    var n := |rows| - 1;
    var front := rows[..n];
    if CollectRoster(front).Err? {
      CollectRosterRefuses(front);
      var k :| 0 <= k < n && front[k] == Err(CollectRoster(front).error) &&
        forall i :: 0 <= i < k ==> front[i].Ok?;
      assert rows[k] == front[k];
      assert forall i :: 0 <= i < k ==> rows[i] == front[i];
    } else {
      CollectRosterAccepts(front);
      assert forall i :: 0 <= i < n ==> rows[i] == front[i];
    }
  }

  /// One more row: a refused row ends the fold with its error, an accepted
  /// one adds its member.
  lemma CollectRosterStep(rows: seq<Result<Member, InitError>>, i: nat, ms: seq<Member>)
    requires i < |rows| && CollectRoster(rows[..i]) == Ok(ms)
    ensures rows[i].Err? ==> CollectRoster(rows) == Err(rows[i].error)
    ensures rows[i].Ok? ==> CollectRoster(rows[..i + 1]) == Ok(ms + [rows[i].value])
  {
    assert rows[..i + 1][..i] == rows[..i];
    if rows[i].Err? {
      CollectRosterStops(rows, i + 1);
    }
  }

  /// Once a prefix of the rows is refused, all of them are, with the same
  /// error.
  lemma {:induction false} CollectRosterStops(rows: seq<Result<Member, InitError>>, i: nat)
    requires i <= |rows| && CollectRoster(rows[..i]).Err?
    ensures CollectRoster(rows) == CollectRoster(rows[..i])
    decreases |rows| - i
  {
    if i < |rows| {
      assert rows[..i + 1][..i] == rows[..i];
      CollectRosterStops(rows, i + 1);
    } else {
      assert rows[..i] == rows;
    }
  }

  // ---------------------------------------------------------------------
  // The history
  // ---------------------------------------------------------------------

  /// The record that opens every history (script.js:291-297).
  function InitialRecord(ms: seq<Member>): Record {
    Record(0.0, InitialState, NoTriggererName, -1, ms)
  }

  /// The history a fresh start produces: the initial record followed by the
  /// simulation from time 0 (script.js:291-310).
  function InitialHistory(ms: seq<Member>): seq<Record> {
    [InitialRecord(ms)] + Simulate(ms, 0.0)
  }

  /// An edit of one member of one row.
  datatype Change = DeltaSpeed(memberIndex: nat, value: real) | DeltaDistance(memberIndex: nat, value: real)

  /// A member with one edit applied (script.js:333-341): a speed change sets
  /// the current speed to base plus change; a distance change leaves the
  /// covered distance alone.
  function EditMember(m: Member, change: Change): (r: Member)
    ensures r.name == m.name && r.baseSpeed == m.baseSpeed && r.distanceCovered == m.distanceCovered
    ensures change.DeltaSpeed? ==>
      r.deltaSpeed == change.value && r.currentSpeed == r.baseSpeed + r.deltaSpeed &&
      r.deltaDistance == m.deltaDistance
    ensures change.DeltaDistance? ==> r == m.(deltaDistance := change.value)
  {
    match change
    case DeltaSpeed(_, v) => m.(deltaSpeed := v, currentSpeed := m.baseSpeed + v)
    case DeltaDistance(_, v) => m.(deltaDistance := v)
  }

  /// The row with one edit applied to one of its members.
  function EditRecord(r: Record, change: Change): Record
    requires change.memberIndex < |r.snapshot|
  {
    r.(snapshot := r.snapshot[change.memberIndex := EditMember(r.snapshot[change.memberIndex], change)])
  }

  /// The history after an edit in row `row` (script.js:324-352): a row past
  /// the end changes nothing; otherwise the rows before it stay, the row
  /// itself takes the edit, and everything after it is the simulation from
  /// the edited row's snapshot and time.
  function Recalculated(h: seq<Record>, row: nat, change: Change): seq<Record>
    requires row < |h| ==> change.memberIndex < |h[row].snapshot|
  {
    if row >= |h| then h
    else
      var edited := EditRecord(h[row], change);
      h[..row] + [edited] + Simulate(edited.snapshot, edited.time)
  }

  /// An edit keeps every row before the edited one, keeps the edited row
  /// except for the one field of the one member, and a row past the end
  /// changes nothing.
  lemma RecalculatedKeepsPrefix(h: seq<Record>, row: nat, change: Change)
    requires row < |h| ==> change.memberIndex < |h[row].snapshot|
    ensures row >= |h| ==> Recalculated(h, row, change) == h
    ensures row < |h| ==>
      var r := Recalculated(h, row, change);
      var k := change.memberIndex;
      |r| > row && r[..row] == h[..row] &&
      r[row].time == h[row].time && r[row].kind == h[row].kind &&
      r[row].triggerer == h[row].triggerer && r[row].triggererName == h[row].triggererName &&
      |r[row].snapshot| == |h[row].snapshot| &&
      (forall j :: 0 <= j < |h[row].snapshot| && j != k ==> r[row].snapshot[j] == h[row].snapshot[j]) &&
      r[row].snapshot[k] == EditMember(h[row].snapshot[k], change) &&
      r[row + 1..] == Simulate(r[row].snapshot, r[row].time)
  {
    if row < |h| {
      var r := Recalculated(h, row, change);
      var edited := EditRecord(h[row], change);
      assert r[row] == edited;
      assert r[row + 1..] == Simulate(edited.snapshot, edited.time);
    }
  }

  // ---------------------------------------------------------------------
  // The edit checks of the two change handlers
  // ---------------------------------------------------------------------

  /// The speed check as script.js:111 writes it. Every comparison with NaN
  /// is false, so a NaN change is never refused.
  predicate SpeedEditRejectedAsWritten(baseSpeed: real, input: Parsed) {
    match input
    case Number(v) => baseSpeed + v <= 0.0
    case NotANumber => false
  }

  /// The speed check as it is evidently meant: a change is refused unless
  /// it is a number that leaves the current speed greater than 0, the same
  /// rule the roster form applies (script.js:275) and the distance handler's
  /// NaN test (script.js:151).
  predicate SpeedEditRejected(baseSpeed: real, input: Parsed) {
    input.NotANumber? || baseSpeed + input.value <= 0.0
  }

  /// A cleared speed field (parseFloat gives NaN) passes the check as
  /// written, although the current speed it then sets is no number at all.
  lemma NotANumberSpeedSlipsThrough(baseSpeed: real)
    ensures !SpeedEditRejectedAsWritten(baseSpeed, NotANumber)
    ensures SpeedEditRejected(baseSpeed, NotANumber)
  {
  }

  /// On numbers the corrected check is the one written, and a change it
  /// lets through leaves a member with a current speed greater than 0.
  lemma SpeedEditAccepted(m: Member, i: nat, input: Parsed)
    ensures input.Number? ==>
      (SpeedEditRejected(m.baseSpeed, input) <==> SpeedEditRejectedAsWritten(m.baseSpeed, input))
    ensures !SpeedEditRejected(m.baseSpeed, input) ==>
      input.Number? && EditMember(m, DeltaSpeed(i, input.value)).currentSpeed > 0.0
  {
  }

  /// The warning of script.js:157-161: the remaining distance without any
  /// distance change, max(0, 10000 - covered), is positive, and adding the
  /// new change to it gives a negative value. The old distance change plays
  /// no part.
  function DistanceWarning(m: Member, value: real): (w: bool)
    ensures w <==> ActionDistance - m.distanceCovered > 0.0 && RawRemaining(m.(deltaDistance := value)) < 0.0
    ensures w ==> RealtimeRemainingDistance(m.(deltaDistance := value)) == 0.0
  {
    var originalRemaining := if ActionDistance - m.distanceCovered > 0.0 then ActionDistance - m.distanceCovered else 0.0;
    originalRemaining + value < 0.0 && originalRemaining > 0.0
  }

  /// What the distance handler does with an input: it refuses NaN, and
  /// otherwise applies the change, warning or not.
  datatype DistanceEdit = DistanceRejected | DistanceApplied(warning: bool)

  // ---------------------------------------------------------------------
  // Well-formed histories
  // ---------------------------------------------------------------------

  /// A member whose speeds agree: a positive base, a current speed that is
  /// base plus change, and a current speed greater than 0.
  predicate SpeedsConsistent(m: Member) {
    m.baseSpeed > 0.0 && m.currentSpeed == m.baseSpeed + m.deltaSpeed && m.currentSpeed > 0.0
  }

  /// Member `m` is roster member `rm`: same name and base speed, and its
  /// speeds agree.
  predicate RosterMember(m: Member, rm: Member) {
    m.name == rm.name && m.baseSpeed == rm.baseSpeed && SpeedsConsistent(m)
  }

  /// Snapshot `s` shows the roster `roster`, member by member.
  predicate ShowsRoster(s: seq<Member>, roster: seq<Member>) {
    |s| == |roster| && forall j :: 0 <= j < |roster| ==> RosterMember(s[j], roster[j])
  }

  /// A row of the history: it shows the roster; an action names its actor,
  /// any other row names nobody; a terminal row sits at the horizon.
  predicate RowWellformed(r: Record, roster: seq<Member>) {
    && ShowsRoster(r.snapshot, roster)
    && (r.kind == SpecialAction ==> 0 <= r.triggerer < |r.snapshot| && r.triggererName == r.snapshot[r.triggerer].name)
    && (r.kind != SpecialAction ==> r.triggerer == -1 && r.triggererName == NoTriggererName)
    && (r.kind == SimulationEnded ==> r.time == TotalSimulationTime)
  }

  /// Every time lies between 0 and the horizon.
  predicate TimesWithin(h: seq<Record>) {
    forall i :: 0 <= i < |h| ==> 0.0 <= h[i].time <= TotalSimulationTime
  }

  /// The times never decrease.
  predicate TimesInOrder(h: seq<Record>) {
    forall i, j :: 0 <= i <= j < |h| ==> h[i].time <= h[j].time
  }

  /// Every row is a well-formed row for `roster`.
  predicate RowsShow(h: seq<Record>, roster: seq<Member>) {
    forall i :: 0 <= i < |h| ==> RowWellformed(h[i], roster)
  }

  /// No row after the first is an initial record.
  predicate OpensOnce(h: seq<Record>) {
    forall i :: 0 < i < |h| ==> h[i].kind != InitialState
  }

  /// Only the last row can be the terminal record.
  predicate EndsLast(h: seq<Record>) {
    forall i :: 0 <= i < |h| - 1 ==> h[i].kind != SimulationEnded
  }

  /// What every history the page builds looks like: it opens with the
  /// initial record at time 0, its times are in order and within the
  /// horizon, every row shows the roster of the first, no later row is an
  /// initial record, and only the last row can be the terminal record.
  predicate Wellformed(h: seq<Record>) {
    && |h| > 0
    && h[0].kind == InitialState && h[0].time == 0.0
    && TimesWithin(h)
    && TimesInOrder(h)
    && RowsShow(h, h[0].snapshot)
    && OpensOnce(h)
    && EndsLast(h)
  }

  /// An action of a member of a snapshot that shows the roster is a
  /// well-formed row for it.
  lemma ActionShowsRoster(r: Record, ms: seq<Member>, roster: seq<Member>)
    requires ShowsRoster(ms, roster) && IsActionOf(r, ms)
    ensures RowWellformed(r, roster)
  {
    forall j | 0 <= j < |roster|
      ensures RosterMember(r.snapshot[j], roster[j])
    {
      assert SameSettings(r.snapshot[j], ms[j]);
    }
    assert SameSettings(r.snapshot[r.triggerer], ms[r.triggerer]);
  }

  /// Every record a simulation returns is a well-formed row for any roster
  /// the starting snapshot shows, none is an initial record, and only the
  /// last can be the terminal record.
  lemma SimulatedRowsWellformed(ms: seq<Member>, start: real, roster: seq<Member>)
    requires ShowsRoster(ms, roster)
    ensures var sim := Simulate(ms, start);
      RowsShow(sim, roster) && EndsLast(sim) &&
      forall i :: 0 <= i < |sim| ==> sim[i].kind != InitialState
  {
    var sim := Simulate(ms, start);
    SimulateRecords(ms, start);
    forall i | 0 <= i < |sim|
      ensures RowWellformed(sim[i], roster) && sim[i].kind != InitialState
      ensures i < |sim| - 1 ==> sim[i].kind != SimulationEnded
    {
      if IsActionOf(sim[i], ms) {
        ActionShowsRoster(sim[i], ms, roster);
      } else {
        ActionShowsRoster(sim[i - 1], ms, roster);
      }
    }
  }

  lemma ConcatTimes(a: seq<Record>, b: seq<Record>)
    requires TimesWithin(a) && TimesWithin(b)
    requires TimesInOrder(a) && TimesInOrder(b)
    requires |a| > 0 && forall j :: 0 <= j < |b| ==> a[|a| - 1].time <= b[j].time
    ensures TimesWithin(a + b) && TimesInOrder(a + b)
  {
    var h := a + b;
    forall i | 0 <= i < |h|
      ensures 0.0 <= h[i].time <= TotalSimulationTime
    {
      if i < |a| {
        assert h[i] == a[i];
      } else {
        assert h[i] == b[i - |a|];
      }
    }
    forall i, j | 0 <= i <= j < |h|
      ensures h[i].time <= h[j].time
    {
      if j < |a| {
        assert h[i] == a[i] && h[j] == a[j];
      } else if i < |a| {
        assert h[i] == a[i] && h[j] == b[j - |a|];
        assert a[i].time <= a[|a| - 1].time;
      } else {
        assert h[i] == b[i - |a|] && h[j] == b[j - |a|];
      }
    }
  }

  lemma ConcatRows(a: seq<Record>, b: seq<Record>, roster: seq<Member>)
    requires RowsShow(a, roster) && RowsShow(b, roster)
    requires OpensOnce(a) && forall j :: 0 <= j < |b| ==> b[j].kind != InitialState
    requires EndsLast(b) && (|b| > 0 ==> forall i :: 0 <= i < |a| ==> a[i].kind != SimulationEnded)
    ensures RowsShow(a + b, roster) && OpensOnce(a + b)
    ensures EndsLast(a) ==> EndsLast(a + b)
  {
    var h := a + b;
    forall i | 0 <= i < |h|
      ensures RowWellformed(h[i], roster)
      ensures 0 < i ==> h[i].kind != InitialState
      ensures EndsLast(a) && i < |h| - 1 ==> h[i].kind != SimulationEnded
    {
      if i < |a| {
        assert h[i] == a[i];
      } else {
        assert h[i] == b[i - |a|];
      }
    }
  }

  /// Replaying from the last row of a well-formed history keeps it
  /// well-formed.
  lemma AppendSimulationWellformed(prefix: seq<Record>, last: Record)
    requires Wellformed(prefix + [last])
    ensures Wellformed(prefix + [last] + Simulate(last.snapshot, last.time))
  {
    var p := prefix + [last];
    var sim := Simulate(last.snapshot, last.time);
    var roster := p[0].snapshot;
    var n := |p|;
    assert p[n - 1] == last;
    if last.kind == SimulationEnded {
      assert last.time == TotalSimulationTime;
      SimulateEnding(last.snapshot, last.time);
      assert p + sim == p;
    } else {
      assert 0.0 <= last.time;
      SimulateTimes(last.snapshot, last.time);
      SimulatedRowsWellformed(last.snapshot, last.time, roster);
      ConcatTimes(p, sim);
      forall i | 0 <= i < n
        ensures p[i].kind != SimulationEnded
      {
      }
      ConcatRows(p, sim, roster);
      assert (p + sim)[0] == p[0];
    }
  }

  /// A fresh start gives a well-formed history.
  lemma InitialHistoryWellformed(inputs: seq<MemberInput>)
    requires ValidateRoster(inputs).Ok?
    ensures Wellformed(InitialHistory(ValidateRoster(inputs).value))
  {
    var rows := CheckedRows(inputs);
    var ms := ValidateRoster(inputs).value;
    CollectRosterAccepts(rows);
    forall j | 0 <= j < |ms|
      ensures RosterMember(ms[j], ms[j])
    {
      CheckMemberSpec(j, inputs[j]);
      assert rows[j] == CheckMember(j, inputs[j]);
    }
    var init := InitialRecord(ms);
    assert [] + [init] == [init];
    assert RowWellformed(init, ms);
    AppendSimulationWellformed([], init);
  }

  /// Two rosters with the same members, name by name and base speed by base
  /// speed.
  predicate SameRoster(a: seq<Member>, b: seq<Member>) {
    |a| == |b| && forall j :: 0 <= j < |a| ==> a[j].name == b[j].name && a[j].baseSpeed == b[j].baseSpeed
  }

  lemma RowUnderSameRoster(r: Record, roster: seq<Member>, roster': seq<Member>)
    requires RowWellformed(r, roster) && SameRoster(roster, roster')
    ensures RowWellformed(r, roster')
  {
    forall j | 0 <= j < |roster'|
      ensures RosterMember(r.snapshot[j], roster'[j])
    {
      assert RosterMember(r.snapshot[j], roster[j]);
    }
  }

  /// An accepted edit keeps a row well-formed: the names, base speeds and
  /// actor stay, and a speed change leaves a current speed greater than 0.
  lemma EditedRowWellformed(r: Record, change: Change, roster: seq<Member>)
    requires RowWellformed(r, roster) && change.memberIndex < |r.snapshot|
    requires change.DeltaSpeed? ==> r.snapshot[change.memberIndex].baseSpeed + change.value > 0.0
    ensures RowWellformed(EditRecord(r, change), roster)
    ensures SameRoster(r.snapshot, EditRecord(r, change).snapshot)
  {
    var e := EditRecord(r, change);
    var k := change.memberIndex;
    forall j | 0 <= j < |roster|
      ensures RosterMember(e.snapshot[j], roster[j])
    {
      assert RosterMember(r.snapshot[j], roster[j]);
      if j == k {
        assert e.snapshot[j] == EditMember(r.snapshot[j], change);
      }
    }
    if e.kind == SpecialAction {
      assert e.snapshot[e.triggerer].name == r.snapshot[r.triggerer].name;
    }
  }

  /// An edit the handlers accept keeps the history well-formed.
  lemma RecalculatedWellformed(h: seq<Record>, row: nat, change: Change)
    requires Wellformed(h)
    requires row < |h| ==> change.memberIndex < |h[row].snapshot|
    requires row < |h| && change.DeltaSpeed? ==> h[row].snapshot[change.memberIndex].baseSpeed + change.value > 0.0
    ensures Wellformed(Recalculated(h, row, change))
  {
    if row < |h| {
      var roster := h[0].snapshot;
      var e := EditRecord(h[row], change);
      var p := h[..row] + [e];
      assert RowWellformed(h[row], roster);
      EditedRowWellformed(h[row], change, roster);
      var roster' := p[0].snapshot;
      assert SameRoster(roster, roster') by {
        if row > 0 {
          assert p[0] == h[0];
        }
      }
      forall i | 0 <= i < |p|
        ensures p[i].time == h[i].time && p[i].kind == h[i].kind
        ensures RowWellformed(p[i], roster')
      {
        if i < row {
          assert p[i] == h[i];
          RowUnderSameRoster(h[i], roster, roster');
        } else {
          RowUnderSameRoster(e, roster, roster');
        }
      }
      assert Wellformed(p);
      AppendSimulationWellformed(h[..row], e);
    }
  }

  /// An edit that leaves the current speed of its member greater than 0,
  /// or one the history has no row for.
  predicate SpeedStaysPositive(h: seq<Record>, row: nat, change: Change)
    requires row < |h| ==> change.memberIndex < |h[row].snapshot|
  {
    row < |h| && change.DeltaSpeed? ==> h[row].snapshot[change.memberIndex].baseSpeed + change.value > 0.0
  }

  /// An edit that keeps the current speed positive keeps an empty or
  /// well-formed history empty or well-formed.
  lemma RecalculatedValid(h: seq<Record>, row: nat, change: Change)
    requires row < |h| ==> change.memberIndex < |h[row].snapshot|
    ensures (h == [] || Wellformed(h)) && SpeedStaysPositive(h, row, change) ==>
      var r := Recalculated(h, row, change);
      r == [] || Wellformed(r)
  {
    if h != [] && Wellformed(h) && SpeedStaysPositive(h, row, change) {
      RecalculatedWellformed(h, row, change);
    }
  }

  // ---------------------------------------------------------------------
  // The page
  // ---------------------------------------------------------------------

  /// The page's state: the history table (simulationHistory, script.js:10).
  class Session {
    var history: seq<Record>

    /// Before the first start the table is empty; afterwards it is
    /// well-formed.
    ghost predicate Valid()
      reads this
    {
      history == [] || Wellformed(history)
    }

    constructor()
      ensures history == [] && Valid()
    {
      history := [];
    }

    /// The simulate button (startOrRecalculateSimulation(false),
    /// script.js:255-310): a refused form is reported with the history left
    /// as it was; otherwise the history becomes the initial record followed
    /// by the simulation from time 0.
    method StartSimulation(inputs: seq<MemberInput>) returns (error: Option<InitError>)
      requires Valid() && |inputs| == RosterSize
      modifies this
      ensures Valid()
      ensures ValidateRoster(inputs).Err? ==> error == Some(ValidateRoster(inputs).error) && history == old(history)
      ensures ValidateRoster(inputs).Ok? ==> error == None && history == InitialHistory(ValidateRoster(inputs).value)
    {
      var roster := ReadRoster(inputs);
      if roster.Err? {
        return Some(roster.error);
      }
      InitialHistoryWellformed(inputs);
      ResetHistory(roster.value);
      error := None;
    }

    /// The table of a new start (script.js:291-310): the initial record,
    /// then the records of the simulation from time 0. Only StartSimulation
    /// calls it, with a roster the form accepted; that caller proves the
    /// new history well-formed (InitialHistoryWellformed).
    method ResetHistory(initialMembers: seq<Member>)
      modifies this
      ensures history == InitialHistory(initialMembers)
    {
      history := [InitialRecord(initialMembers)];
      var newRecords := RunFullSimulation(initialMembers, 0.0);
      history := history[..1] + newRecords;
    }

    /// recalculateSimulationFromRow (script.js:324-355): a row past the end
    /// is only logged; otherwise the edit is made in the stored row, and
    /// everything after that row is replaced by the simulation from its
    /// snapshot and time. An edit that leaves a current speed greater than 0
    /// keeps a well-formed history well-formed; the handlers refuse the others.
    method RecalculateFromRow(row: nat, change: Change)
      requires row < |history| ==> change.memberIndex < |history[row].snapshot|
      modifies this
      ensures history == Recalculated(old(history), row, change)
      ensures old(Valid()) && SpeedStaysPositive(old(history), row, change) ==> Valid()
    {
      if row >= |history| {
        return;
      }
      ghost var old_history := history;
      RecalculatedValid(history, row, change);
      var originalRecord := history[row];
      var memberToModify := originalRecord.snapshot[change.memberIndex];
      match change {
        case DeltaSpeed(_, v) =>
          memberToModify := memberToModify.(deltaSpeed := v, currentSpeed := memberToModify.baseSpeed + v);
        case DeltaDistance(_, v) =>
          memberToModify := memberToModify.(deltaDistance := v);
      }
      var edited := originalRecord.(snapshot := originalRecord.snapshot[change.memberIndex := memberToModify]);
      assert edited == EditRecord(originalRecord, change);
      ghost var before := history;
      history := history[row := edited];
      assert history[..row + 1] == before[..row] + [edited];
      var newSubsequentRecords := RunFullSimulation(edited.snapshot, edited.time);
      history := history[..row + 1] + newSubsequentRecords;
      assert history == Recalculated(old_history, row, change);
    }

    /// The change handler of a speed-change field (script.js:105-123), with
    /// the NaN case refused: a refused change leaves the history as it was,
    /// an accepted one is replayed from its row.
    method OnDeltaSpeedChange(row: nat, memberIndex: nat, input: Parsed) returns (accepted: bool)
      requires Valid() && row < |history| && memberIndex < |history[row].snapshot|
      modifies this
      ensures Valid()
      ensures accepted == !SpeedEditRejected(old(history)[row].snapshot[memberIndex].baseSpeed, input)
      ensures accepted ==> history == Recalculated(old(history), row, DeltaSpeed(memberIndex, input.value))
      ensures !accepted ==> history == old(history)
    {
      var currentBaseSpeed := history[row].snapshot[memberIndex].baseSpeed;
      if SpeedEditRejected(currentBaseSpeed, input) {
        return false;
      }
      RecalculateFromRow(row, DeltaSpeed(memberIndex, input.value));
      accepted := true;
    }

    /// The change handler of a distance-change field (script.js:146-168): a
    /// NaN change is refused and leaves the history as it was; any number is
    /// replayed from its row, with the warning of DistanceWarning.
    method OnDeltaDistanceChange(row: nat, memberIndex: nat, input: Parsed) returns (outcome: DistanceEdit)
      requires Valid() && row < |history| && memberIndex < |history[row].snapshot|
      modifies this
      ensures Valid()
      ensures input.NotANumber? ==> outcome == DistanceRejected && history == old(history)
      ensures input.Number? ==>
        outcome == DistanceApplied(DistanceWarning(old(history)[row].snapshot[memberIndex], input.value)) &&
        history == Recalculated(old(history), row, DeltaDistance(memberIndex, input.value))
    {
      if input.NotANumber? {
        return DistanceRejected;
      }
      var warning := DistanceWarning(history[row].snapshot[memberIndex], input.value);
      RecalculateFromRow(row, DeltaDistance(memberIndex, input.value));
      outcome := DistanceApplied(warning);
    }
  }
}
