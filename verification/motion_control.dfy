/** The trajectory ring and the moving-state machine of the motion
    controller (teensy/loli_teensy/MotionControlSystem.cpp).

    The controller follows a ring of 256 trajectory points indexed by an
    8-bit counter. Each point is up to date or obsolete and may be a stop
    point. The PID, odometry and motor arithmetic is not modelled: the
    set-points appear only as the values `stop` clears, and the managers
    that detect a stopped or blocked robot are boolean inputs. */
module MotionControl {
  import opened Common

  const RING: int := 256

  /** A point of the trajectory: its position, orientation and curvature are
      not modelled. The default-constructed point is obsolete. */
  datatype TrajectoryPoint = TrajectoryPoint(upToDate: bool, stopPoint: bool)

  const VoidPoint: TrajectoryPoint := TrajectoryPoint(false, false)

  predicate IsStop(p: TrajectoryPoint)
  {
    p.upToDate && p.stopPoint
  }

  datatype MovingState = STOPPED | MOVE_INIT | MOVING | EXT_BLOCKED | INT_BLOCKED | EMPTY_TRAJ

  datatype PidErrors = PidErrors(integral: real, derivative: real)

  /** The quantities `stop` resets. */
  datatype Drive = Drive(
    currentTranslation: real, translationSetpoint: real,
    leftSpeedSetpoint: real, rightSpeedSetpoint: real,
    leftPWM: real, rightPWM: real,
    movingSpeedSetpoint: real, previousMovingSpeedSetpoint: real,
    leftMotorCommand: real, rightMotorCommand: real,
    translationPid: PidErrors, leftSpeedPid: PidErrors, rightSpeedPid: PidErrors,
    leftMotorError: real, rightMotorError: real)

  datatype Mcs = Mcs(
    traj: seq<TrajectoryPoint>, trajectoryIndex: int, nextStopPoint: int,
    movingState: MovingState, trajectoryFullyCompleted: bool, drive: Drive)

  /** The ring has 256 points, the index is a byte, the next stop point a
      16-bit word. */
  predicate Valid(s: Mcs)
  {
    |s.traj| == RING && 0 <= s.trajectoryIndex < RING && 0 <= s.nextStopPoint <= UINT16_MAX
  }

  /** The index one past `i`, as an 8-bit counter wraps it. */
  function Succ(i: int): (j: int)
    requires 0 <= i < RING
    ensures 0 <= j < RING
    ensures j == i + 1 || (i == RING - 1 && j == 0)
  {
    (i + 1) % RING
  }

  // ---------------------------------------------------------------------
  // stop
  // ---------------------------------------------------------------------

  const NoPidErrors: PidErrors := PidErrors(0.0, 0.0)

  /** stop: translation, set-points, PWMs, motor commands and PID errors are
      all zero. */
  function Stop(d: Drive): (r: Drive)
    ensures r.currentTranslation == 0.0 && r.translationSetpoint == 0.0
    ensures r.leftSpeedSetpoint == 0.0 && r.rightSpeedSetpoint == 0.0
    ensures r.leftPWM == 0.0 && r.rightPWM == 0.0
    ensures r.movingSpeedSetpoint == 0.0 && r.previousMovingSpeedSetpoint == 0.0
    ensures r.leftMotorCommand == 0.0 && r.rightMotorCommand == 0.0
    ensures r.translationPid == NoPidErrors && r.leftSpeedPid == NoPidErrors && r.rightSpeedPid == NoPidErrors
    ensures r.leftMotorError == 0.0 && r.rightMotorError == 0.0
  {
    Drive(0.0, 0.0, 0.0, 0.0, 0.0, 0.0, 0.0, 0.0, 0.0, 0.0, NoPidErrors, NoPidErrors, NoPidErrors, 0.0, 0.0)
  }

  /** After stop nothing of the previous drive state remains, so stopping
      twice is stopping once. */
  lemma StopForgets(a: Drive, b: Drive)
    ensures Stop(a) == Stop(b)
    ensures Stop(Stop(a)) == Stop(a)
  {
  }

  // ---------------------------------------------------------------------
  // clearCurrentTrajectory
  // ---------------------------------------------------------------------

  /** Every point of the ring becomes the obsolete default point and the
      trajectory counts as fully completed. */
  function ClearCurrentTrajectory(s: Mcs): (r: Mcs)
    requires Valid(s)
    ensures Valid(r)
    ensures |r.traj| == RING && forall i :: 0 <= i < RING ==> r.traj[i] == VoidPoint
    ensures r.trajectoryFullyCompleted
    ensures r.trajectoryIndex == s.trajectoryIndex && r.nextStopPoint == s.nextStopPoint
    ensures r.movingState == s.movingState && r.drive == s.drive
  {
    s.(traj := seq(RING, _ => VoidPoint), trajectoryFullyCompleted := true)
  }

  // ---------------------------------------------------------------------
  // updateNextStopPoint
  // ---------------------------------------------------------------------

  /** The point `k` places after the one following `idx`, around the ring. */
  function At(traj: seq<TrajectoryPoint>, idx: int, k: int): TrajectoryPoint
    requires |traj| == RING
  {
    traj[(idx + 1 + k) % RING]
  }

  /** The `j` points following `idx` are up to date and none is a stop. */
  ghost predicate RunBefore(traj: seq<TrajectoryPoint>, idx: int, j: int)
    requires |traj| == RING
  {
    forall k :: 0 <= k < j ==> At(traj, idx, k).upToDate && !At(traj, idx, k).stopPoint
  }

  /** The scan of the stop-point search from its `j`-th step, the position
      reduced around the ring. */
  function ScanFrom(traj: seq<TrajectoryPoint>, idx: int, j: int): (r: int)
    requires |traj| == RING && 0 <= j <= RING && RunBefore(traj, idx, j)
    ensures r == UINT16_MAX || 0 <= r < RING
    ensures r != UINT16_MAX ==>
      exists k :: j <= k < RING && RunBefore(traj, idx, k) && IsStop(At(traj, idx, k)) && r == (idx + 1 + k) % RING
    ensures r == UINT16_MAX ==>
      forall k :: j <= k < RING && RunBefore(traj, idx, k) ==> !IsStop(At(traj, idx, k))
    decreases RING - j
  {
    if j == RING || !At(traj, idx, j).upToDate then
      UINT16_MAX
    else if At(traj, idx, j).stopPoint then
      (idx + 1 + j) % RING
    else
      ScanFrom(traj, idx, j + 1)
  }

  /** The next stop point: the current point when it is an up-to-date stop
      point, otherwise the first stop point of the run of up-to-date points
      that follows it around the ring, or UINT16_MAX when that run holds
      none. */
  function NextStopPoint(traj: seq<TrajectoryPoint>, idx: int): (r: int)
    requires |traj| == RING && 0 <= idx < RING
    ensures 0 <= r <= UINT16_MAX
    ensures IsStop(traj[idx]) ==> r == idx
    ensures !IsStop(traj[idx]) && r != UINT16_MAX ==>
      exists k :: 0 <= k < RING && RunBefore(traj, idx, k) && IsStop(At(traj, idx, k)) && r == (idx + 1 + k) % RING
    ensures !IsStop(traj[idx]) && r == UINT16_MAX ==>
      forall k :: 0 <= k < RING && RunBefore(traj, idx, k) ==> !IsStop(At(traj, idx, k))
  {
    if IsStop(traj[idx]) then idx else ScanFrom(traj, idx, 0)
  }

  /** The value found is an up-to-date stop point. */
  lemma NextStopPointIsStop(traj: seq<TrajectoryPoint>, idx: int)
    requires |traj| == RING && 0 <= idx < RING
    ensures var r := NextStopPoint(traj, idx); r != UINT16_MAX ==> 0 <= r < RING && IsStop(traj[r])
  {
  }

  /** The search as written: the scan position is a 16-bit word that is
      never reduced around the ring, so a run reaching the last point reads
      past the end of the 256-point array; that read is the `Err`. */
  function ScanAsWritten(traj: seq<TrajectoryPoint>, n: int, check: int): (r: Result<int, int>)
    requires |traj| == RING && 0 <= n <= RING && 0 <= check
    ensures r.Err? ==> r.error == RING
    ensures r.Ok? ==> r.value == UINT16_MAX || (n <= r.value < RING && IsStop(traj[r.value]))
    decreases RING + 1 - n
  {
    if n >= RING then Err(n)
    else if !(traj[n].upToDate && check < 256) then Ok(UINT16_MAX)
    else if traj[n].stopPoint then Ok(n)
    else ScanAsWritten(traj, n + 1, check + 1)
  }

  function NextStopPointAsWritten(traj: seq<TrajectoryPoint>, idx: int): (r: Result<int, int>)
    requires |traj| == RING && 0 <= idx < RING
    ensures r.Err? ==> r.error == RING
  {
    if IsStop(traj[idx]) then Ok(idx) else ScanAsWritten(traj, idx + 1, 0)
  }

  /** As written, a search from the last point of the ring reads the point
      at index 256, past the array, while the stop point it should find is
      at index 0. */
  lemma StopSearchOverrunsRing(traj: seq<TrajectoryPoint>)
    requires |traj| == RING && !IsStop(traj[RING - 1]) && IsStop(traj[0])
    ensures NextStopPointAsWritten(traj, RING - 1) == Err(RING)
    ensures NextStopPoint(traj, RING - 1) == 0
  {
    assert At(traj, RING - 1, 0) == traj[0];
  }

  /** Where the written search stays inside the array it agrees with the
      search around the ring. */
  lemma {:induction false} ScanAsWrittenAgrees(traj: seq<TrajectoryPoint>, idx: int, j: int)
    requires |traj| == RING && 0 <= idx < RING && 0 <= j && idx + 1 + j <= RING
    requires RunBefore(traj, idx, j)
    requires ScanAsWritten(traj, idx + 1 + j, j).Ok?
    ensures ScanAsWritten(traj, idx + 1 + j, j).value == ScanFrom(traj, idx, j)
    decreases RING - j
  {
    var n := idx + 1 + j;
    assert n < RING;
    assert At(traj, idx, j) == traj[n];
    if traj[n].upToDate && !traj[n].stopPoint {
      ScanAsWrittenAgrees(traj, idx, j + 1);
    }
  }

  lemma NextStopPointAsWrittenAgrees(traj: seq<TrajectoryPoint>, idx: int)
    requires |traj| == RING && 0 <= idx < RING
    requires NextStopPointAsWritten(traj, idx).Ok?
    ensures NextStopPointAsWritten(traj, idx).value == NextStopPoint(traj, idx)
  {
    if !IsStop(traj[idx]) {
      ScanAsWrittenAgrees(traj, idx, 0);
    }
  }

  /** updateNextStopPoint, with the search around the ring. */
  function UpdateNextStopPoint(s: Mcs): (r: Mcs)
    requires Valid(s)
    ensures Valid(r) && r == s.(nextStopPoint := r.nextStopPoint)
    ensures r.nextStopPoint == NextStopPoint(s.traj, s.trajectoryIndex)
  {
    s.(nextStopPoint := NextStopPoint(s.traj, s.trajectoryIndex))
  }

  /** A cleared ring holds no stop point. */
  lemma ClearedRingHasNoStop(s: Mcs)
    requires Valid(s)
    ensures UpdateNextStopPoint(ClearCurrentTrajectory(s)).nextStopPoint == UINT16_MAX
  {
  }

  /** The state the constructor leaves: an empty ring, stopped at index 0. */
  function Init(): (s: Mcs)
    ensures Valid(s)
    ensures s.movingState == STOPPED && s.trajectoryFullyCompleted && s.trajectoryIndex == 0
    ensures s.nextStopPoint == UINT16_MAX
    ensures forall i :: 0 <= i < RING ==> !s.traj[i].upToDate
  {
    var s0 := Mcs(seq(RING, _ => VoidPoint), 0, 0, STOPPED, true,
                  Stop(Drive(0.0, 0.0, 0.0, 0.0, 0.0, 0.0, 0.0, 0.0, 0.0, 0.0, NoPidErrors, NoPidErrors, NoPidErrors, 0.0, 0.0)));
    ClearedRingHasNoStop(s0);
    assert ClearCurrentTrajectory(s0) == s0;
    UpdateNextStopPoint(s0)
  }

  // ---------------------------------------------------------------------
  // checkTrajectory, manageStop, manageBlocking
  // ---------------------------------------------------------------------

  /** What a moving controller needs of its ring: the current point is up to
      date and, while moving through a point that is not a stop, so is the
      next one. */
  predicate TrajectoryUsable(s: Mcs)
    requires Valid(s)
  {
    s.traj[s.trajectoryIndex].upToDate
    && (s.movingState == MOVING && !s.traj[s.trajectoryIndex].stopPoint ==> s.traj[Succ(s.trajectoryIndex)].upToDate)
  }

  /** A fault: the given state, the ring cleared and the drive stopped. */
  function Fault(s: Mcs, state: MovingState): (r: Mcs)
    requires Valid(s)
    ensures Valid(r) && r.movingState == state && r.drive == Stop(s.drive)
    ensures r.trajectoryFullyCompleted && forall i :: 0 <= i < RING ==> !r.traj[i].upToDate
    ensures r.trajectoryIndex == s.trajectoryIndex && r.nextStopPoint == s.nextStopPoint
  {
    ClearCurrentTrajectory(s).(movingState := state, drive := Stop(s.drive))
  }

  /** checkTrajectory: a controller starting or moving on an unusable ring
      falls to EMPTY_TRAJ with the ring cleared and the drive stopped. */
  function CheckTrajectory(s: Mcs): (r: Mcs)
    requires Valid(s)
    ensures Valid(r)
    ensures r.movingState in {MOVE_INIT, MOVING} ==> TrajectoryUsable(r)
    ensures r != s <==> s.movingState in {MOVE_INIT, MOVING} && !TrajectoryUsable(s)
    ensures r != s ==> r == Fault(s, EMPTY_TRAJ)
  {
    if s.movingState in {MOVE_INIT, MOVING} && !TrajectoryUsable(s) then Fault(s, EMPTY_TRAJ) else s
  }

  /** Checking twice is checking once. */
  lemma CheckTrajectoryIdempotent(s: Mcs)
    requires Valid(s)
    ensures CheckTrajectory(CheckTrajectory(s)) == CheckTrajectory(s)
  {
  }

  /** manageStop: when the end-of-move detector reports the robot still
      while MOVING, the controller is STOPPED on a stop point and otherwise
      EXT_BLOCKED with its ring cleared; either way the drive is stopped. */
  function ManageStop(s: Mcs, isStopped: bool): (r: Mcs)
    requires Valid(s)
    ensures Valid(r)
    ensures !(isStopped && s.movingState == MOVING) ==> r == s
    ensures isStopped && s.movingState == MOVING ==>
      r.drive == Stop(s.drive)
      && (r.movingState == STOPPED <==> s.traj[s.trajectoryIndex].stopPoint)
      && (r.movingState == STOPPED ==> r.traj == s.traj && r.trajectoryFullyCompleted == s.trajectoryFullyCompleted)
      && (r.movingState != STOPPED ==> r == Fault(s, EXT_BLOCKED))
  {
    if isStopped && s.movingState == MOVING then
      if s.traj[s.trajectoryIndex].stopPoint then s.(movingState := STOPPED, drive := Stop(s.drive))
      else Fault(s, EXT_BLOCKED)
    else s
  }

  /** manageBlocking: a blocked motor on either side is INT_BLOCKED with the
      ring cleared and the drive stopped, whatever the state was. */
  function ManageBlocking(s: Mcs, leftBlocked: bool, rightBlocked: bool): (r: Mcs)
    requires Valid(s)
    ensures Valid(r)
    ensures (leftBlocked || rightBlocked) ==> r == Fault(s, INT_BLOCKED)
    ensures !(leftBlocked || rightBlocked) ==> r == s
  {
    if leftBlocked || rightBlocked then Fault(s, INT_BLOCKED) else s
  }

  /** After any fault the next trajectory check leaves the controller
      alone, and a controller that was moving is moving no more. */
  lemma FaultsLeaveNothingToFollow(s: Mcs, state: MovingState)
    requires Valid(s) && state !in {MOVE_INIT, MOVING}
    ensures CheckTrajectory(Fault(s, state)) == Fault(s, state)
    ensures UpdateNextStopPoint(Fault(s, state)).nextStopPoint == UINT16_MAX
  {
    ClearedRingHasNoStop(s.(movingState := state, drive := Stop(s.drive)));
    assert ClearCurrentTrajectory(s.(movingState := state, drive := Stop(s.drive))) == Fault(s, state);
  }

  // ---------------------------------------------------------------------
  // addTrajectoryPoint, gotoNextStopPoint
  // ---------------------------------------------------------------------

  /** addTrajectoryPoint: the point is stored at the given index; the next
      stop point is searched again when a stop point is written or
      overwritten. */
  function AddTrajectoryPoint(s: Mcs, p: TrajectoryPoint, index: int): (r: Mcs)
    requires Valid(s) && 0 <= index < RING
    ensures Valid(r)
    ensures r.traj == s.traj[index := p]
    ensures r.trajectoryIndex == s.trajectoryIndex && r.movingState == s.movingState
    ensures r.trajectoryFullyCompleted == s.trajectoryFullyCompleted && r.drive == s.drive
    ensures (p.stopPoint || IsStop(s.traj[index])) ==> r.nextStopPoint == NextStopPoint(r.traj, r.trajectoryIndex)
    ensures !(p.stopPoint || IsStop(s.traj[index])) ==> r.nextStopPoint == s.nextStopPoint
  {
    var t := s.(traj := s.traj[index := p]);
    if p.stopPoint || IsStop(s.traj[index]) then UpdateNextStopPoint(t) else t
  }

  /** Writing an up-to-date stop point at the current index makes it the
      next stop point. */
  lemma StopAtCurrentIndex(s: Mcs, p: TrajectoryPoint)
    requires Valid(s) && IsStop(p)
    ensures AddTrajectoryPoint(s, p, s.trajectoryIndex).nextStopPoint == s.trajectoryIndex
  {
  }

  /** Writing an up-to-date stop point just after an obsolete current point
      makes it the next stop point. */
  lemma StopJustAhead(s: Mcs, p: TrajectoryPoint)
    requires Valid(s) && IsStop(p) && !s.traj[s.trajectoryIndex].upToDate
    ensures AddTrajectoryPoint(s, p, Succ(s.trajectoryIndex)).nextStopPoint == Succ(s.trajectoryIndex)
  {
    var r := AddTrajectoryPoint(s, p, Succ(s.trajectoryIndex));
    assert At(r.traj, s.trajectoryIndex, 0) == p;
    assert RunBefore(r.traj, s.trajectoryIndex, 0);
  }

  /** updateTrajectoryIndex. While MOVING through a point that is not a
      stop, the controller passes to the next point when it is up to date
      and the robot is past the current point (`passed`, a geometric test
      on the position that is not modelled). While STOPPED on a stop point
      with an up-to-date successor and an uncompleted trajectory, it leaves
      the stop point. The point left behind becomes obsolete. */
  function UpdateTrajectoryIndex(s: Mcs, passed: bool): (r: Mcs)
    requires Valid(s)
    ensures Valid(r)
    ensures r.movingState == s.movingState && r.drive == s.drive
    ensures r.trajectoryIndex == s.trajectoryIndex || r.trajectoryIndex == Succ(s.trajectoryIndex)
    ensures r.trajectoryIndex == s.trajectoryIndex ==> r == s
    ensures r.trajectoryIndex != s.trajectoryIndex ==>
      r.traj == s.traj[s.trajectoryIndex := s.traj[s.trajectoryIndex].(upToDate := false)]
      && r.traj[r.trajectoryIndex].upToDate
    ensures r.trajectoryIndex != s.trajectoryIndex && s.movingState == STOPPED ==>
      r.trajectoryFullyCompleted && r.nextStopPoint == NextStopPoint(r.traj, r.trajectoryIndex)
  {
    var i := s.trajectoryIndex;
    var left := s.traj[i := s.traj[i].(upToDate := false)];
    if s.movingState == MOVING && !s.traj[i].stopPoint then
      if s.traj[Succ(i)].upToDate && passed then s.(traj := left, trajectoryIndex := Succ(i))
      else s
    else if s.movingState == STOPPED && s.traj[i].stopPoint then
      if s.traj[Succ(i)].upToDate && !s.trajectoryFullyCompleted then
        UpdateNextStopPoint(s.(traj := left, trajectoryIndex := Succ(i))).(trajectoryFullyCompleted := true)
      else s
    else s
  }

  /** gotoNextStopPoint: advance the index unless the trajectory is
      completed, then start moving with an uncompleted trajectory. */
  function GotoNextStopPoint(s: Mcs, passed: bool): (r: Mcs)
    requires Valid(s)
    ensures Valid(r)
    ensures r.movingState == MOVE_INIT && !r.trajectoryFullyCompleted
    ensures s.trajectoryFullyCompleted ==> r.traj == s.traj && r.trajectoryIndex == s.trajectoryIndex
    ensures r.drive == s.drive
  {
    var t := if !s.trajectoryFullyCompleted then UpdateTrajectoryIndex(s, passed) else s;
    t.(movingState := MOVE_INIT, trajectoryFullyCompleted := false)
  }

  /** From STOPPED on a stop point with an uncompleted trajectory, starting
      again leaves the stop point for the next up-to-date one. */
  lemma RestartLeavesStopPoint(s: Mcs, passed: bool)
    requires Valid(s) && s.movingState == STOPPED && !s.trajectoryFullyCompleted
    requires s.traj[s.trajectoryIndex].stopPoint && s.traj[Succ(s.trajectoryIndex)].upToDate
    ensures var r := GotoNextStopPoint(s, passed);
      r.trajectoryIndex == Succ(s.trajectoryIndex) && !r.traj[s.trajectoryIndex].upToDate
      && r.movingState == MOVE_INIT
  {
  }

  // ---------------------------------------------------------------------
  // getPIDtoSet_str
  // ---------------------------------------------------------------------

  datatype PidToSet = LEFT_SPEED | RIGHT_SPEED | SPEED | TRANSLATION | OtherPid

  /** The name written into a buffer of `size` characters: nothing for an
      empty buffer, the empty string for one shorter than 12, the PID's
      name otherwise (the empty string for a value outside the four). */
  function PidToSetStr(size: nat, pid: PidToSet): (r: Option<string>)
    ensures r.None? <==> size == 0
    ensures r.Some? ==> |r.value| + 1 <= size
    ensures 0 < size < 12 ==> r == Some("")
    ensures size >= 12 && pid != OtherPid ==> |r.value| > 0
  {
    if size == 0 then None
    else if size < 12 then Some("")
    else match pid
      case LEFT_SPEED => Some("LEFT_SPEED")
      case RIGHT_SPEED => Some("RIGHT_SPEED")
      case SPEED => Some("SPEED")
      case TRANSLATION => Some("TRANSLATION")
      case OtherPid => Some("")
  }

  /** The four names are distinct, so the written name identifies the PID. */
  lemma PidNamesDistinct(size: nat, a: PidToSet, b: PidToSet)
    requires size >= 12 && a != OtherPid && b != OtherPid
    ensures PidToSetStr(size, a) == PidToSetStr(size, b) <==> a == b
  {
  }
}
