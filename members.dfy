/// One member of the squad: its fixed and editable speed, the distance it has
/// covered since it last acted, and the rule that says how long it still has
/// to wait before its next action (script.js:8, 13-25).
module Members {

  /// Distance a member has to cover between two of its actions.
  const ActionDistance: real := 10000.0

  /// Tolerance of the stepper's stall check and of its snap-to-finished rule.
  const Epsilon: real := 0.000000001

  /// The state the page keeps for one member. `distanceCovered` is the
  /// source's distanceCoveredSinceLastAction; `deltaDistance` is an offset to
  /// the remaining distance that the member's next action consumes.
  datatype Member = Member(
    name: string,
    baseSpeed: real,
    deltaSpeed: real,
    currentSpeed: real,
    distanceCovered: real,
    deltaDistance: real)

  /// A time value as the page computes it: a non-negative number or +Infinity.
  datatype Time = Finite(value: real) | Infinity

  /// Distance still to go before the next action, before clamping at zero.
  function RawRemaining(m: Member): real {
    ActionDistance - m.distanceCovered + m.deltaDistance
  }

  /// Remaining distance as shown to the user: the raw remaining distance,
  /// clamped below at zero (Math.max(0, ...)).
  function RealtimeRemainingDistance(m: Member): (r: real)
    ensures r >= 0.0 && r >= RawRemaining(m)
    ensures r == RawRemaining(m) || r == 0.0
  {
    if RawRemaining(m) > 0.0 then RawRemaining(m) else 0.0
  }

  /// Time the member needs, at its current speed, to cover its remaining
  /// distance; +Infinity when the member does not move forward.
  function TimeToNextAction(m: Member): (t: Time)
    ensures t == Infinity <==> m.currentSpeed <= 0.0
    ensures t.Finite? ==> t.value >= 0.0
    ensures t.Finite? ==> t.value * m.currentSpeed == RealtimeRemainingDistance(m)
    ensures t == Finite(0.0) <==> m.currentSpeed > 0.0 && RawRemaining(m) <= 0.0
  {
    if m.currentSpeed <= 0.0 then Infinity
    else Finite(RealtimeRemainingDistance(m) / m.currentSpeed)
  }

  /// Two states of one member agree on everything the stepper never touches.
  predicate SameSettings(a: Member, b: Member) {
    a.name == b.name && a.baseSpeed == b.baseSpeed &&
    a.deltaSpeed == b.deltaSpeed && a.currentSpeed == b.currentSpeed
  }
}
