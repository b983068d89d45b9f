# Turn-order simulator

A model of the turn-order simulator behind the page in `script.js`. It has four members. Each member covers distance at its current speed and acts when it has covered 10000 metres, adjusted by its distance change. The simulation runs from time 0 to a horizon of 1500 seconds.

The page keeps a history table with:
- an initial record,
- one record per action,
- optionally a terminal "simulation ended" record.

Any speed change or distance change in any row can be edited. The row is patched and everything after it is recomputed from that row's snapshot and time.

Modules:

- `Members` (members.dfy): the member record and the rule for the next action.
  - The remaining distance is `max(0, 10000 - covered + deltaDistance)`.
  - The time to the next action is that distance divided by the current speed.
  - A member that does not move forward gets +Infinity, modelled by the datatype `Time`.
- `Engine` (engine.dfy): the stepper of `runFullSimulation`.
  - The functions `NextStep` (one pass of the loop body), `ActionLoop` (the loop) and `Simulate` (the loop plus the terminal record) are the specification.
  - The methods `AdvanceAll` (the inner `for` loop), `RunActions` (the `while` loop) and `RunFullSimulation` follow the code statement by statement. Each one is proved equal to its function.
  - The loop ends without a fuel bound. The proof uses a lexicographic measure:
    - first, the number of Epsilon-long steps left before the horizon;
    - then, the number of members that are due.

    A committed step of length 0 always retires the member that acts.
- `EngineProperties` (engine_properties.dfy): what the stepper promises.
  - Who acts: the first member, in roster order, with the least time.
  - When the loop stops, and what a step changes.
  - The records as a chain of steps, in time order and within the horizon.
  - The shape of the terminal record.
- `Ledger` (ledger.dfy): the history table and the page's handlers, as the class `Session`, whose field `history` is reassigned as the page reassigns `simulationHistory`.
  - Validation of the roster form: ECMAScript `trim`, an empty name, and a speed that is NaN or at most 0.
  - The fresh start.
  - `recalculateSimulationFromRow`.
  - The checks of the two edit handlers.
  - The invariant `Wellformed`, which the start and the two edit handlers keep (`RecalculateFromRow` keeps it for an edit that leaves the current speed above 0). It says the history:
    - opens with the initial record at time 0;
    - has times in order and within [0, 1500];
    - shows the roster of the first row in every row, with consistent speeds;
    - has no second initial record;
    - has a terminal record at most at the end.

Inputs the page reads from the DOM are parameters:
- a name is a `string`;
- a number field is a `Parsed`, either a `real` or NaN;
- a row and a member index are `nat`s.

Alerts and error messages become return values:
- `Option<InitError>` for the start;
- `bool` for a speed edit;
- `DistanceEdit` for a distance edit, with its warning flag.

Numbers are exact `real`s.

What the code does that a reader might not expect:

- **Terminal record.** The terminal record is appended only when the last action lands exactly on 1500.
  - The loop never commits a step past the horizon. So the clock reaches 1500 only through an action at 1500 (`Engine.Simulate`, `EngineProperties.SimulateEnding`).
  - The fallback branch for a simulation with no actions (script.js:243-251) can never fire.
  - So a simulation often has no terminal record, and a history need not end with one.
- **Horizon.** The horizon is the constant 1500 (script.js:7). No caller can change it.
- **Row past the end.** An edit of a row past the end is only logged, and the history stays as it was (script.js:325-328). No error is returned.
- **Termination.** The loop is proved to stop for every roster and start time, so no step bound is needed (`Engine.StepProgress`).
- **Distance change.** The change is added to the remaining distance (script.js:18). A positive change therefore makes the member wait longer, and a negative one makes it act sooner.

## Model

| member | source | states |
|---|---|---|
| Members.RealtimeRemainingDistance | script.js:22-25 | the remaining distance is never negative, is at least the raw `10000 - covered + deltaDistance`, and is either that raw value or 0 |
| Members.TimeToNextAction | script.js:13-20 | +Infinity exactly when the current speed is at most 0; otherwise a non-negative time whose product with the current speed is the remaining distance; exactly 0 when the member moves and has nothing left to cover |
| Engine.MinTimeIsLeast | script.js:198 | `Math.min` over the times is no greater than any of them, is one of them, and is +Infinity for an empty list |
| Engine.IndexOfFirst | script.js:199 | `indexOf` gives a position holding the value with no earlier one, or -1 when the value is absent |
| Engine.TriggererInRoster | script.js:198-199 | when some member can act, the index found lies inside the roster |
| Engine.NextStep | script.js:196-224 | a committed step names an actor inside the roster, and the roster keeps its length |
| Engine.StepProgress | script.js:201-220 | every committed step moves the clock on by at least 1e-9, or has length 0 and lowers the number of members that are due, so the loop stops |
| Engine.ActionLoop | script.js:195-233 | the loop's clock is the start when nothing was pushed, and otherwise the time of the last record pushed |
| Engine.ActionLoopUnfold | script.js:195-233 | a committed pass pushes its record in front of the records of the rest of the loop, with the same final clock |
| Engine.LoopBodyCommits | script.js:196-232 | the loop body as the code computes it commits the step `NextStep` describes, its record followed by the rest of the loop gives the whole, and the measure goes down |
| Engine.LoopBodyIsNextStep | script.js:196-224 | the loop body's minimum, index, advance and reset are exactly `NextStep`'s commit |
| Engine.CommitPushes | script.js:220-232 | a committed step's record moves from the rest of the loop onto the records pushed so far, and the measure drops |
| Engine.LoopBodyHalts | script.js:201-207 | a minimum of +Infinity, one strictly between 0 and 1e-9, or a step past the horizon pushes nothing more and keeps the clock |
| Engine.AdvanceAll | script.js:210-219 | the `for` loop moves every member on by `currentSpeed * dt` (only when `dt > 0`) and snaps a member within 1e-9 of done to exactly `10000 + deltaDistance`, equal to `Advance` |
| Engine.RunActions | script.js:192-233 | the `while` loop pushes exactly the records of `ActionLoop` and stops at its clock |
| Engine.RunFullSimulation | script.js:190-253 | the records returned are exactly `Simulate` of the roster and start time |
| EngineProperties.NoMemberCanAct | script.js:196-202 | the minimum is +Infinity exactly when no member has a current speed above 0 |
| EngineProperties.TriggererIsFirstMinimum | script.js:196-199 | the actor's time is the step length, no member's time is below it, and every member before the actor has a strictly greater time (ties go to the lowest index) |
| EngineProperties.HaltRule | script.js:201-207 | the loop body stops exactly when the minimum is +Infinity, lies strictly between 0 and 1e-9, or would carry the clock past 1500; a minimum of exactly 0 is committed |
| EngineProperties.StepTiming | script.js:201-220 | a committed step is 0 or at least 1e-9 long and ends no later than 1500 |
| EngineProperties.StepEffect | script.js:210-224 | the actor's covered distance and distance change become 0; every other member covers `currentSpeed * dt` more, or is snapped to `10000 + deltaDistance` when then within 1e-9, and keeps its distance change; no name or speed changes |
| EngineProperties.StateBeforeShift | script.js:195-233 | past the first record, the state before each record of a chain is the state before the same record of the chain's tail |
| EngineProperties.LoopIsStepChain | script.js:195-233 | each record the loop pushes is the step committed from the state the previous record left (or from the start), and the loop ends where no step can be committed before the horizon |
| EngineProperties.SortedByNeighbours | script.js:220-227 | records whose times never drop from one to the next are in time order |
| EngineProperties.PushedTiming | script.js:205-227 | a pushed record's time lies between the clock it was pushed from and 1500 |
| EngineProperties.LoopTimes | script.js:195-233 | the loop's record times are in order, none before the start and none after 1500 |
| EngineProperties.ChainTimes | script.js:195-233 | any chain of pushed records is in time order and lies between its start and 1500 |
| EngineProperties.ActionOfCarries | script.js:223-231 | a step that keeps every member's name and speeds keeps a record an action of the earlier roster |
| EngineProperties.LoopRecords | script.js:223-231 | every loop record is a "special action" that names its actor, shows it starting a new cycle, and shows every member with the name and speeds of the starting roster |
| EngineProperties.SimulateEnding | script.js:235-251 | the result is the loop's actions, plus one terminal record with the last action's snapshot exactly when that action is at 1500; a start at or past 1500 gives no records |
| EngineProperties.LoopLast | script.js:235 | the last loop record is an action no later than 1500, and the loop's clock stops at its time |
| EngineProperties.SimulateTimes | script.js:190-253 | the returned record times are in order, none before the start and none after 1500 |
| EngineProperties.SimulateRecords | script.js:226-242 | every returned record is an action of the given roster, except a terminal record, which comes last, right after an action, and shows that action's snapshot |
| Ledger.TrimStart | script.js:268 | the result ends `s`, everything cut from the front is whitespace, and it does not start with whitespace |
| Ledger.TrimEnd | script.js:268 | the result starts `s`, everything cut from the back is whitespace, and it does not end with whitespace |
| Ledger.TrimIsSlice | script.js:268 | the trimmed name is a contiguous piece of the input, and everything outside it is whitespace |
| Ledger.CutBothEnds | script.js:268 | cutting whitespace from the front and then from the back leaves a piece of the input with whitespace on both sides |
| Ledger.TrimEnds | script.js:268 | a non-empty trimmed name neither starts nor ends with whitespace |
| Ledger.TrimEmpty | script.js:268-271 | the trimmed name is empty exactly when the input is all whitespace |
| Ledger.CheckMemberSpec | script.js:268-286 | a row is refused exactly when its name is all whitespace or its speed is not a number above 0; an empty name is reported by the row's number, counted from 1, and a named row with a bad speed by its trimmed name; an accepted row is a member with the trimmed name, the speed as base and current speed, no speed change, nothing covered and no distance change |
| Ledger.CollectRosterAccepts | script.js:264-288 | the form is accepted exactly when every row is, and then the roster holds the rows' members in order |
| Ledger.CollectRosterRefuses | script.js:264-278 | a refused form carries the error of the first refused row |
| Ledger.CollectRosterStep | script.js:264-288 | one more row either ends the check with its error or adds its member |
| Ledger.CollectRosterStops | script.js:271-277 | once a row is refused, later rows do not change the error |
| Ledger.EditMember | script.js:333-341 | a speed change sets the change and makes the current speed base plus change; a distance change sets only the distance change; name, base speed and covered distance never change |
| Ledger.RecalculatedKeepsPrefix | script.js:324-352 | a row past the end changes nothing; otherwise the rows before the edited one are kept, the edited row keeps everything but the one field of the one member, and the rows after it are the simulation from its snapshot and time |
| Ledger.NotANumberSpeedSlipsThrough | script.js:111 | a NaN speed change passes the check as written, but not the corrected check |
| Ledger.SpeedEditAccepted | script.js:110-116 | on numbers the corrected check agrees with the one written, and an accepted change leaves a current speed above 0 |
| Ledger.DistanceWarning | script.js:157-161 | a warning exactly when the remaining distance without any distance change, `max(0, 10000 - covered)`, is positive and adding the new change to it gives a negative value (the old distance change plays no part); the shown remaining distance after the change is then 0 |
| Ledger.ActionShowsRoster | script.js:226-232 | an action of a snapshot that shows the roster is a well-formed row for it |
| Ledger.SimulatedRowsWellformed | script.js:190-253 | every simulated record is a well-formed row for the starting roster, none is an initial record, and only the last can be the terminal record |
| Ledger.ConcatTimes | script.js:351-352 | joining two in-order lists whose second part is no earlier than the end of the first keeps times in order and within the horizon |
| Ledger.ConcatRows | script.js:351-352 | joining well-formed rows keeps every row well-formed, keeps a single initial record, and keeps the terminal record last |
| Ledger.AppendSimulationWellformed | script.js:347-352 | replaying from the last row of a well-formed history keeps it well-formed |
| Ledger.InitialHistoryWellformed | script.js:291-310 | the history a fresh start builds is well-formed |
| Ledger.RowUnderSameRoster | script.js:333-341 | a row stays well-formed under a roster with the same names and base speeds |
| Ledger.EditedRowWellformed | script.js:333-341 | an edit with a positive resulting speed keeps a row well-formed, and keeps its names and base speeds |
| Ledger.RecalculatedWellformed | script.js:324-352 | an edit the handlers accept keeps the history well-formed |
| Engine.Simulate | script.js:190-253 | no contract of its own; its properties are `EngineProperties.SimulateEnding`, `SimulateTimes` and `SimulateRecords`, and `Engine.RunFullSimulation` is proved equal to it |
| Engine.Times | script.js:196 | no contract of its own; `Engine.TimesAt` gives its per-member entries and `EngineProperties.TriggererIsFirstMinimum` states what the selection over it promises |
| Engine.ActionRecord | script.js:226-232 | no contract of its own; see `EngineProperties.LoopRecords`, whose `IsActionOf` states what every pushed action record holds |
| Engine.EndRecord | script.js:236-242 | no contract of its own; see `EngineProperties.SimulateEnding` and `EngineProperties.SimulateRecords` |
| Ledger.InitialRecord | script.js:291-297 | no contract of its own; see `Ledger.InitialHistoryWellformed` |
| Ledger.EditRecord | script.js:330-341 | no contract of its own; see `Ledger.RecalculatedKeepsPrefix`, which states that only the one field of the one member changes |
| Engine.MinTime | script.js:198 | no contract of its own; see `Engine.MinTimeIsLeast` |
| Engine.IndexOf | script.js:199 | no contract of its own; see `Engine.IndexOfFirst` |
| Engine.AdvanceMember | script.js:210-219 | no contract of its own; its effect within a step is `EngineProperties.StepEffect` |
| Engine.Advance | script.js:210-219 | no contract of its own; see `Engine.AdvanceAll`, which is proved equal to it, and `EngineProperties.StepEffect` |
| Engine.ResetActor | script.js:223-224 | no contract of its own; its effect is the actor clause of `EngineProperties.StepEffect` |
| Ledger.Trim | script.js:268 | no contract of its own; see `Ledger.TrimIsSlice`, `Ledger.TrimEnds` and `Ledger.TrimEmpty` |
| Ledger.CheckMember | script.js:268-286 | no contract of its own; see `Ledger.CheckMemberSpec` |
| Ledger.CollectRoster | script.js:264-288 | no contract of its own; see `Ledger.CollectRosterAccepts`, `CollectRosterRefuses`, `CollectRosterStep` and `CollectRosterStops` |
| Ledger.ValidateRoster | script.js:264-288 | no contract of its own; `Ledger.ReadRoster` is proved equal to it, and its properties are those of `CollectRoster` over the checked rows |
| Ledger.InitialHistory | script.js:291-310 | no contract of its own; see `Ledger.InitialHistoryWellformed` and `Ledger.Session.StartSimulation` |
| Ledger.Recalculated | script.js:324-352 | no contract of its own; see `Ledger.RecalculatedKeepsPrefix` and `Ledger.RecalculatedWellformed` |
| Ledger.SpeedEditRejectedAsWritten | script.js:111 | no contract of its own; see `Ledger.NotANumberSpeedSlipsThrough` |
| Ledger.SpeedEditRejected | script.js:111 | no contract of its own; the corrected check, see `Ledger.SpeedEditAccepted` |
| Ledger.RecalculatedValid | script.js:324-352 | an edit that keeps its member's current speed above 0 turns an empty or well-formed history into an empty or well-formed one |
| Ledger.Session.constructor | script.js:10 | the history starts empty |
| Ledger.ReadRoster | script.js:264-288 | the roster loop gives exactly the result of checking every row in order, stopping at the first refused one |
| Ledger.Session.StartSimulation | script.js:255-310 | a refused form reports its error and leaves the history as it was; an accepted one makes the history the initial record followed by the simulation from time 0; the history stays well-formed |
| Ledger.Session.ResetHistory | script.js:291-310 | the history becomes the initial record followed by the simulation from time 0 |
| Ledger.Session.RecalculateFromRow | script.js:324-355 | the new history is `Recalculated` of the old one: unchanged for a row past the end, otherwise the kept rows, the edited row and the replay from it; an edit leaving a current speed above 0 keeps a well-formed history well-formed |
| Ledger.Session.OnDeltaSpeedChange | script.js:105-123 | a change is refused, with the history unchanged, exactly when it is NaN or leaves the current speed at most 0; otherwise the history is replayed from the row; it stays well-formed |
| Ledger.Session.OnDeltaDistanceChange | script.js:146-168 | NaN is refused with the history unchanged; any number is applied and replayed, with the warning flag of `DistanceWarning`; the history stays well-formed |

## Left out

- DOM and rendering (script.js:27-104, 124-145, 169-187, 312-321): the table header, the table rows, `toFixed` formatting, highlighting. None of it changes the history. The two change handlers inside the row rendering (script.js:105-123, 146-168) are modelled by `Session.OnDeltaSpeedChange` and `Session.OnDeltaDistanceChange`.
- Event wiring and the default form values (script.js:1-5, 357-370). The handlers are the methods of `Session`, and their inputs are parameters.
- Alerts, `errorMessage.textContent` and `console.error`. They are return values or nothing. The text of the messages is not modelled.
- Restoring the old value into an input field after a refused edit (script.js:113-114, 153). It is display only.
- `parseFloat`, `parseInt` and IEEE-754 floating point: numbers are exact `real`s, and NaN is the `NotANumber` case of `Parsed`. +Infinity is modelled only as the stepper's "cannot act" value.
- The 1e-9 thresholds. The source compares doubles with the double nearest to 1e-9; the model compares exact `real`s with the exact real 10⁻⁹. Rounding error, which these thresholds guard against, does not arise in the model.
- JavaScript aliasing of snapshots.
  - The terminal record shares the array of the action before it (script.js:241). An edit of the terminal row (script.js:331-341) therefore also changes the row before it in the page.
  - The model copies values, so the row before is kept.
  - Because values are copied, the guarantee that `runFullSimulation` leaves its input untouched (script.js:192, 231, 345) holds by construction. It is not stated as a lemma.
- The recalculation branch of `startOrRecalculateSimulation` (script.js:300-305). Its only caller passes `false` (script.js:359).
- `updateTableHeader` and `memberNames` (script.js:287-289). They are display only.
- Ledger.Session.StartSimulation requires exactly four form rows, the fixed roster of the page (script.js:264). Nothing else in the model depends on the roster size.
- Ledger.Session.OnDeltaSpeedChange refuses a NaN change, which the source lets through (see Findings). For numbers it behaves as the source does.

## Findings

| source | as written | input that shows it | evidently intended | confidence | as-written member | corrected member |
|---|---|---|---|---|---|---|
| script.js:111 | the speed edit is refused only when `baseSpeed + newDeltaSpeed <= 0`; with NaN that comparison is false, so the edit goes through: row k's stored member gets `deltaSpeed` and `currentSpeed` NaN in place (script.js:335-336); the replay then finds `Math.min` NaN and `indexOf(NaN)` -1, passes both break tests, and throws a TypeError at `membersState[-1]` (script.js:223), so the rows after k are never replaced and the table is not redrawn, unless row k's time is already 1500 | clear a speed-change field, so `parseFloat` gives NaN | refuse a change that is not a number, as the roster form (script.js:275) and the distance handler (script.js:151) do | not executed | Ledger.NotANumberSpeedSlipsThrough | Ledger.SpeedEditAccepted |
