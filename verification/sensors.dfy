/** Sensor filtering and wall correction (pc/src/capteurs/CapteursProcess.java).
    The vector geometry of the source (rotating a measure into the world
    frame, the argument of a vector) is left to the caller: world points,
    the argument of the vector between two sightings and the rotation
    about the robot are inputs. Positions are in millimetres on a table
    3000 mm wide (x from -1500 to 1500) and 2000 mm deep. */
module Sensors {
  import opened Common
  import GameTable

  datatype Point = Point(x: real, y: real)

  function AbsR(r: real): real
  {
    if r < 0.0 then -r else r
  }

  // ---------------------------------------------------------------------
  // getPositionVue
  // ---------------------------------------------------------------------

  /** getPositionVue: no position when the measure is at or below the
      sensor's minimal distance or at or beyond its range; otherwise the
      world point `seen` the measure designates. */
  function GetPositionVue(mesure: int, distanceMin: int, portee: int, seen: Point): (r: Option<Point>)
    ensures r.None? <==> mesure <= distanceMin || mesure >= portee
    ensures r.Some? ==> r.value == seen
  {
    if mesure <= distanceMin || mesure >= portee then None else Some(seen)
  }

  /** A measure is trusted exactly when it lies strictly inside the
      sensor's range, and then the sighting does not depend on the range. */
  lemma PositionVueInRange(mesure: int, distanceMin: int, portee: int, seen: Point)
    ensures GetPositionVue(mesure, distanceMin, portee, seen).Some? <==> distanceMin < mesure < portee
    ensures distanceMin < mesure < portee ==>
      GetPositionVue(mesure, distanceMin, portee, seen) == GetPositionVue(mesure, mesure - 1, mesure + 1, seen)
  {
  }

  // ---------------------------------------------------------------------
  // orientationMurProche
  // ---------------------------------------------------------------------

  datatype Mur = MurHaut | MurBas | MurGauche | MurDroit

  /** The orientation of a wall: 0 for the long walls, pi/2 for the short ones. */
  function Orientation(m: Mur): real
  {
    match m
    case MurHaut | MurBas => 0.0
    case MurGauche | MurDroit => PI / 2.0
  }

  /** Which walls a point is near: within three times the positional
      imprecision of the wall's line. */
  datatype WallFlags = WallFlags(bas: bool, droit: bool, haut: bool, gauche: bool)

  function NearWalls(pos: Point, imprecisionMaxPos: real): (f: WallFlags)
    ensures f.bas <==> AbsR(pos.y) < 3.0 * imprecisionMaxPos
    ensures f.haut <==> AbsR(pos.y - 2000.0) < 3.0 * imprecisionMaxPos
    ensures f.droit <==> AbsR(pos.x - 1500.0) < 3.0 * imprecisionMaxPos
    ensures f.gauche <==> AbsR(pos.x + 1500.0) < 3.0 * imprecisionMaxPos
  {
    var distanceMax := 3.0 * imprecisionMaxPos;
    WallFlags(AbsR(pos.y) < distanceMax, AbsR(pos.x - 1500.0) < distanceMax,
              AbsR(pos.y - 2000.0) < distanceMax, AbsR(pos.x + 1500.0) < distanceMax)
  }

  function B2N(b: bool): nat
  {
    if b then 1 else 0
  }

  /** How many walls are near. */
  function Count(f: WallFlags): (n: nat)
    ensures n <= 4
  {
    B2N(f.bas) + B2N(f.droit) + B2N(f.haut) + B2N(f.gauche)
  }

  function Xor(a: bool, b: bool): bool
  {
    a != b
  }

  /** orientationMurProche as written: nothing unless an odd number of
      walls is near (the four-way exclusive or), then the first of bottom,
      right and left that is near, and the bottom wall otherwise. There is
      no branch for the top wall. */
  function OrientationMurProcheAsWritten(f: WallFlags): (r: Option<Mur>)
    ensures r.None? <==> Count(f) % 2 == 0
    ensures r.Some? ==> r.value != MurHaut
  {
    if !Xor(Xor(Xor(f.bas, f.droit), f.haut), f.gauche) then None
    else if f.bas then Some(MurBas)
    else if f.droit then Some(MurDroit)
    else if f.gauche then Some(MurGauche)
    else Some(MurBas)
  }

  /** A point near the top wall only is reported as near the bottom wall. */
  lemma TopWallReportedAsBottom()
    ensures OrientationMurProcheAsWritten(WallFlags(false, false, true, false)) == Some(MurBas)
    ensures NearWalls(Point(0.0, 2000.0), 10.0) == WallFlags(false, false, true, false)
  {
  }

  /** The point at the top wall, reported as near the bottom wall, yields a
      vertical residual of 2000 mm, so with any positional tolerance below
      that the correction is discarded: the top wall never corrects. */
  lemma TopWallResidualAsWritten()
    ensures Residual(MurBas, Point(0.0, 2000.0)) == (0.0, -2000.0)
    ensures Residual(MurHaut, Point(0.0, 2000.0)) == (0.0, 0.0)
  {
  }

  /** orientationMurProche with the top-wall branch the enumeration and the
      residual computation provide for. */
  function OrientationMurProche(f: WallFlags): (r: Option<Mur>)
    ensures r.None? <==> Count(f) % 2 == 0
    ensures r == Some(MurHaut) ==> f.haut
    ensures r == Some(MurBas) ==> f.bas
    ensures r == Some(MurDroit) ==> f.droit
    ensures r == Some(MurGauche) ==> f.gauche
  {
    if !Xor(Xor(Xor(f.bas, f.droit), f.haut), f.gauche) then None
    else if f.bas then Some(MurBas)
    else if f.droit then Some(MurDroit)
    else if f.gauche then Some(MurGauche)
    else Some(MurHaut)
  }

  /** Near exactly one wall, that wall is named; near none, two or four,
      none is; near three, one of them is named. */
  lemma OneWallNamed(f: WallFlags)
    ensures Count(f) == 1 ==>
      OrientationMurProche(f) == Some(if f.bas then MurBas else if f.droit then MurDroit
                                      else if f.gauche then MurGauche else MurHaut)
    ensures Count(f) == 3 ==> OrientationMurProche(f).Some?
    ensures OrientationMurProche(f) != OrientationMurProcheAsWritten(f) <==>
      (f.haut && !f.bas && !f.droit && !f.gauche)
  {
  }

  // ---------------------------------------------------------------------
  // The orientation error
  // ---------------------------------------------------------------------

  /** The orientation error brought back towards [-pi/2, pi/2] as written:
      the second test compares an absolute value with a negative bound, so
      it never holds and negative errors below -pi/2 move further away. */
  function DeltaOrientationAsWritten(d: real): (r: real)
    ensures AbsR(d) > PI / 2.0 ==> r == d - PI
    ensures AbsR(d) <= PI / 2.0 ==> r == d
  {
    if AbsR(d) > PI / 2.0 then d - PI
    else if AbsR(d) < -PI / 2.0 then d + PI
    else d
  }

  /** A wall of orientation 0 seen along a vector of argument pi gives the
      error -pi, which is brought to -2 pi instead of 0. */
  lemma DeltaOrientationCounterexample()
    ensures DeltaOrientationAsWritten(Orientation(MurBas) - PI) == -2.0 * PI
    ensures DeltaOrientation(Orientation(MurBas) - PI) == 0.0
  {
  }

  /** The intended normalisation: subtract pi above pi/2, add pi below
      -pi/2. The error is a wall orientation (0 or pi/2) minus an argument
      in (-pi, pi], so it lies in [-pi, 3pi/2). */
  function DeltaOrientation(d: real): (r: real)
    requires -PI <= d < 3.0 * PI / 2.0
    ensures -PI / 2.0 <= r <= PI / 2.0
    ensures r == d || r == d - PI || r == d + PI
  {
    if d > PI / 2.0 then d - PI
    else if d < -PI / 2.0 then d + PI
    else d
  }

  /** Every error an actual wall and argument produce is in the domain. */
  lemma ErrorInDomain(m: Mur, argument: real)
    requires -PI < argument <= PI
    ensures -PI <= Orientation(m) - argument < 3.0 * PI / 2.0
  {
  }

  // ---------------------------------------------------------------------
  // One side's correction
  // ---------------------------------------------------------------------

  /** A correction: the position and orientation offsets to apply. */
  datatype Correction = Correction(dx: real, dy: real, dtheta: real)

  /** The positional residual against a wall: the offset that brings the
      sighting onto the wall's line. */
  function Residual(m: Mur, p: Point): (r: (real, real))
    ensures m == MurBas ==> r == (0.0, -p.y)
    ensures m == MurHaut ==> r == (0.0, 2000.0 - p.y)
    ensures m == MurGauche ==> r == (-1500.0 - p.x, 0.0)
    ensures m == MurDroit ==> r == (1500.0 - p.x, 0.0)
  {
    match m
    case MurBas => (0.0, -p.y)
    case MurHaut => (0.0, -(p.y - 2000.0))
    case MurGauche => (-(p.x + 1500.0), 0.0)
    case MurDroit => (-(p.x - 1500.0), 0.0)
  }

  /** A residual places the sighting on the wall it names. */
  lemma ResidualReachesWall(m: Mur, p: Point)
    ensures var (dx, dy) := Residual(m, p);
      var q := Point(p.x + dx, p.y + dy);
      (m == MurBas ==> q.y == 0.0) && (m == MurHaut ==> q.y == 2000.0)
      && (m == MurGauche ==> q.x == -1500.0) && (m == MurDroit ==> q.x == 1500.0)
  {
  }

  /** The inputs of one side (left or right) of correctXYO: the two
      sightings of its front and rear lateral sensors (None when the
      measure is out of range), the argument of the vector from the rear
      sighting to the front one, and the rotation of a point by an angle
      about the robot. */
  datatype Side = Side(
    seen1: Option<Point>, seen2: Option<Point>, argument: real,
    rotate: (Point, real) -> Point)

  /** The wall both sightings are near, if it is the same one. */
  function CommonWall(s: Side, imprecisionMaxPos: real): (m: Option<Mur>)
    ensures m.Some? ==> s.seen1.Some? && s.seen2.Some?
    ensures m.Some? <==>
      && s.seen1.Some? && s.seen2.Some?
      && OrientationMurProche(NearWalls(s.seen1.value, imprecisionMaxPos)).Some?
      && OrientationMurProche(NearWalls(s.seen1.value, imprecisionMaxPos))
         == OrientationMurProche(NearWalls(s.seen2.value, imprecisionMaxPos))
  {
    if s.seen1.None? || s.seen2.None? then None
    else
      var mur1 := OrientationMurProche(NearWalls(s.seen1.value, imprecisionMaxPos));
      var mur2 := OrientationMurProche(NearWalls(s.seen2.value, imprecisionMaxPos));
      if mur1.None? || mur2.None? || mur1 != mur2 then None else mur1
  }

  /** One iteration of correctXYO's loop: no correction unless both
      sightings exist and name the same wall, the orientation error is
      within the angular tolerance and both residuals of the rotated front
      sighting are within the positional tolerance. */
  function SideCorrection(s: Side, imprecisionMaxPos: real, imprecisionMaxAngle: real): (r: Option<Correction>)
    requires -PI < s.argument <= PI
    ensures r.Some? ==> CommonWall(s, imprecisionMaxPos).Some?
    ensures r.Some? ==>
      && AbsR(r.value.dtheta) <= imprecisionMaxAngle
      && AbsR(r.value.dx) <= imprecisionMaxPos && AbsR(r.value.dy) <= imprecisionMaxPos
    ensures r.Some? ==> -PI / 2.0 <= r.value.dtheta <= PI / 2.0
    ensures CommonWall(s, imprecisionMaxPos).Some? ==>
      var m := CommonWall(s, imprecisionMaxPos).value;
      var d := DeltaOrientation(Orientation(m) - s.argument);
      var (dx, dy) := Residual(m, s.rotate(s.seen1.value, d));
      (r.Some? <==> AbsR(d) <= imprecisionMaxAngle && AbsR(dx) <= imprecisionMaxPos && AbsR(dy) <= imprecisionMaxPos)
      && (r.Some? ==> r.value == Correction(dx, dy, d))
  {
    match CommonWall(s, imprecisionMaxPos)
    case None => None
    case Some(m) =>
      ErrorInDomain(m, s.argument);
      var d := DeltaOrientation(Orientation(m) - s.argument);
      if AbsR(d) > imprecisionMaxAngle then None
      else
        var p1 := s.rotate(s.seen1.value, d);
        var (dx, dy) := Residual(m, p1);
        if AbsR(dx) > imprecisionMaxPos || AbsR(dy) > imprecisionMaxPos then None
        else Some(Correction(dx, dy, d))
  }

  /** The wall both sightings are near as written: the walls are named by
      the as-written orientationMurProche. */
  function CommonWallAsWritten(s: Side, imprecisionMaxPos: real): (m: Option<Mur>)
    ensures m.Some? <==>
      && s.seen1.Some? && s.seen2.Some?
      && OrientationMurProcheAsWritten(NearWalls(s.seen1.value, imprecisionMaxPos)).Some?
      && OrientationMurProcheAsWritten(NearWalls(s.seen1.value, imprecisionMaxPos))
         == OrientationMurProcheAsWritten(NearWalls(s.seen2.value, imprecisionMaxPos))
    ensures m != Some(MurHaut)
  {
    if s.seen1.None? || s.seen2.None? then None
    else
      var mur1 := OrientationMurProcheAsWritten(NearWalls(s.seen1.value, imprecisionMaxPos));
      var mur2 := OrientationMurProcheAsWritten(NearWalls(s.seen2.value, imprecisionMaxPos));
      if mur1.None? || mur2.None? || mur1 != mur2 then None else mur1
  }

  /** One iteration of correctXYO's loop as written: the walls named by the
      as-written orientationMurProche, the orientation error reduced by the
      as-written test. A correction never refers to the top wall, and its
      residual and angle are within the tolerances. */
  function SideCorrectionAsWritten(s: Side, imprecisionMaxPos: real, imprecisionMaxAngle: real): (r: Option<Correction>)
    ensures r.Some? ==> CommonWallAsWritten(s, imprecisionMaxPos).Some?
    ensures r.Some? ==>
      && AbsR(r.value.dtheta) <= imprecisionMaxAngle
      && AbsR(r.value.dx) <= imprecisionMaxPos && AbsR(r.value.dy) <= imprecisionMaxPos
    ensures CommonWallAsWritten(s, imprecisionMaxPos).Some? ==>
      var m := CommonWallAsWritten(s, imprecisionMaxPos).value;
      var d := DeltaOrientationAsWritten(Orientation(m) - s.argument);
      var (dx, dy) := Residual(m, s.rotate(s.seen1.value, d));
      (r.Some? <==> AbsR(d) <= imprecisionMaxAngle && AbsR(dx) <= imprecisionMaxPos && AbsR(dy) <= imprecisionMaxPos)
      && (r.Some? ==> r.value == Correction(dx, dy, d))
  {
    match CommonWallAsWritten(s, imprecisionMaxPos)
    case None => None
    case Some(m) =>
      var d := DeltaOrientationAsWritten(Orientation(m) - s.argument);
      if AbsR(d) > imprecisionMaxAngle then None
      else
        var p1 := s.rotate(s.seen1.value, d);
        var (dx, dy) := Residual(m, p1);
        if AbsR(dx) > imprecisionMaxPos || AbsR(dy) > imprecisionMaxPos then None
        else Some(Correction(dx, dy, d))
  }

  /** Near the top wall and nothing else. */
  predicate TopOnly(f: WallFlags)
  {
    f.haut && !f.bas && !f.droit && !f.gauche
  }

  /** The as-written side correction is the corrected one whenever neither
      sighting is near the top wall alone and the vector's argument is at
      most a quarter turn, so that the orientation error is never below
      -pi/2. */
  lemma SideCorrectionAsWrittenAgrees(s: Side, imprecisionMaxPos: real, imprecisionMaxAngle: real)
    requires -PI < s.argument <= PI / 2.0
    requires s.seen1.Some? ==> !TopOnly(NearWalls(s.seen1.value, imprecisionMaxPos))
    requires s.seen2.Some? ==> !TopOnly(NearWalls(s.seen2.value, imprecisionMaxPos))
    ensures SideCorrectionAsWritten(s, imprecisionMaxPos, imprecisionMaxAngle)
         == SideCorrection(s, imprecisionMaxPos, imprecisionMaxAngle)
  {
    if s.seen1.Some? {
      OneWallNamed(NearWalls(s.seen1.value, imprecisionMaxPos));
    }
    if s.seen2.Some? {
      OneWallNamed(NearWalls(s.seen2.value, imprecisionMaxPos));
    }
    assert CommonWallAsWritten(s, imprecisionMaxPos) == CommonWall(s, imprecisionMaxPos);
    match CommonWall(s, imprecisionMaxPos)
    case None =>
    case Some(m) =>
      ErrorInDomain(m, s.argument);
      assert DeltaOrientationAsWritten(Orientation(m) - s.argument) == DeltaOrientation(Orientation(m) - s.argument);
  }

  /** As written, a side whose two sightings are near the top wall alone
      is taken to face the bottom wall; its vertical residual is the whole
      height of the rotated sighting, so unless the rotation brings that
      sighting within the tolerance of the bottom wall, the correction is
      discarded. The corrected version measures the residual against the
      top wall instead. */
  lemma TopWallNeverCorrectsAsWritten(s: Side, imprecisionMaxPos: real, imprecisionMaxAngle: real)
    requires s.seen1.Some? && s.seen2.Some?
    requires TopOnly(NearWalls(s.seen1.value, imprecisionMaxPos)) && TopOnly(NearWalls(s.seen2.value, imprecisionMaxPos))
    requires AbsR(s.rotate(s.seen1.value, DeltaOrientationAsWritten(-s.argument)).y) > imprecisionMaxPos
    ensures CommonWallAsWritten(s, imprecisionMaxPos) == Some(MurBas)
    ensures CommonWall(s, imprecisionMaxPos) == Some(MurHaut)
    ensures SideCorrectionAsWritten(s, imprecisionMaxPos, imprecisionMaxAngle).None?
  {
    OneWallNamed(NearWalls(s.seen1.value, imprecisionMaxPos));
    OneWallNamed(NearWalls(s.seen2.value, imprecisionMaxPos));
    assert Orientation(MurBas) - s.argument == -s.argument;
  }

  // ---------------------------------------------------------------------
  // The correction buffer
  // ---------------------------------------------------------------------

  /** bufferCorrection and indexCorrection; the slots below the index were
      written since the last reset. */
  datatype CorrectionBuffer = CorrectionBuffer(entries: seq<Option<Correction>>, index: nat)

  ghost predicate ValidBuffer(b: CorrectionBuffer)
  {
    && |b.entries| > 0
    && b.index < |b.entries|
    && forall k :: 0 <= k < b.index ==> b.entries[k].Some?
  }

  function EmptyBuffer(size: nat): (b: CorrectionBuffer)
    requires size > 0
    ensures ValidBuffer(b) && |b.entries| == size && b.index == 0
  {
    CorrectionBuffer(seq(size, _ => None), 0)
  }

  function SumDx(cs: seq<Correction>): real
  {
    if |cs| == 0 then 0.0 else SumDx(cs[..|cs| - 1]) + cs[|cs| - 1].dx
  }

  function SumDy(cs: seq<Correction>): real
  {
    if |cs| == 0 then 0.0 else SumDy(cs[..|cs| - 1]) + cs[|cs| - 1].dy
  }

  function SumDtheta(cs: seq<Correction>): real
  {
    if |cs| == 0 then 0.0 else SumDtheta(cs[..|cs| - 1]) + cs[|cs| - 1].dtheta
  }

  /** The mean of the buffered corrections. */
  function Average(cs: seq<Correction>): Correction
    requires |cs| > 0
  {
    var n := |cs| as real;
    Correction(SumDx(cs) / n, SumDy(cs) / n, SumDtheta(cs) / n)
  }

  /** The values of a buffer whose slots are all written. */
  function Values(entries: seq<Option<Correction>>): (cs: seq<Correction>)
    requires forall k :: 0 <= k < |entries| ==> entries[k].Some?
    ensures |cs| == |entries| && forall k :: 0 <= k < |cs| ==> entries[k] == Some(cs[k])
  {
    seq(|entries|, k requires 0 <= k < |entries| => entries[k].value)
  }

  /** Staleness as the source tests it: more than `peremption` ms since the
      last correction pass. */
  predicate Stale(now: int, dateLast: int, peremption: int)
  {
    now - dateLast > peremption
  }

  /** Storing one correction: the index restarts at 0 when the previous
      pass is stale, the correction is written at the index, and when the
      buffer is full the mean of its contents is sent and the index
      restarts at 0. */
  function AddCorrection(b: CorrectionBuffer, c: Correction, stale: bool): (r: (CorrectionBuffer, Option<Correction>))
    requires ValidBuffer(b)
    ensures ValidBuffer(r.0) && |r.0.entries| == |b.entries|
    ensures var at := if stale then 0 else b.index;
      && r.0.entries == b.entries[at := Some(c)]
      && (r.1.Some? <==> at + 1 == |b.entries|)
      && (r.1.None? ==> r.0.index == at + 1)
      && (r.1.Some? ==> r.0.index == 0 && r.1.value == Average(Values(r.0.entries)))
  {
    var at := if stale then 0 else b.index;
    var entries := b.entries[at := Some(c)];
    if at + 1 == |entries| then
      (CorrectionBuffer(entries, 0), Some(Average(Values(entries))))
    else
      (CorrectionBuffer(entries, at + 1), None)
  }

  /** Every slot of the buffer holds a correction. */
  predicate AllWritten(entries: seq<Option<Correction>>)
  {
    forall k :: 0 <= k < |entries| ==> entries[k].Some?
  }

  /** The index after a write at `at`: the next slot, or 0 when the write
      filled the buffer. */
  function NextIndex(at: nat, n: nat): nat
  {
    if at + 1 == n then 0 else at + 1
  }

  /** The slot the next correction of a pass goes to. */
  function WriteAt(b: CorrectionBuffer, stale: bool): nat
  {
    if stale then 0 else b.index
  }

  /** The passes of correctXYO over the two sides, left then right. The
      staleness test of both uses the date of the previous pass, which is
      only updated at the end. Each side's correction is written at the
      index, or at slot 0 when the previous pass is stale; a write into the
      last slot sends the mean of the full buffer and the index restarts
      at 0. */
  function CorrectXYO(b: CorrectionBuffer, left: Option<Correction>, right: Option<Correction>,
                      now: int, dateLast: int, peremption: int)
    : (r: (CorrectionBuffer, seq<Correction>, int))
    requires ValidBuffer(b)
    ensures ValidBuffer(r.0) && |r.0.entries| == |b.entries|
    ensures r.2 == now
    ensures |r.1| <= 2
    ensures left.None? && right.None? ==> r.0 == b && r.1 == []
    ensures var stale := Stale(now, dateLast, peremption);
      var n := |b.entries|;
      var at := WriteAt(b, stale);
      left.Some? != right.Some? ==>
        var c := if left.Some? then left.value else right.value;
        && r.0.entries == b.entries[at := Some(c)]
        && r.0.index == NextIndex(at, n)
        && (r.1 != [] <==> at + 1 == n)
        && (r.1 != [] ==> AllWritten(r.0.entries) && r.1 == [Average(Values(r.0.entries))])
  {
    var stale := Stale(now, dateLast, peremption);
    if left.None? && right.None? then (b, [], now)
    else if right.None? then
      var (b1, sent1) := AddCorrection(b, left.value, stale);
      (b1, Sent(sent1), now)
    else if left.None? then
      var (b2, sent2) := AddCorrection(b, right.value, stale);
      (b2, Sent(sent2), now)
    else
      var (b1, sent1) := AddCorrection(b, left.value, stale);
      var (b2, sent2) := AddCorrection(b1, right.value, stale);
      (b2, Sent(sent1) + Sent(sent2), now)
  }

  /** A pass in which both sides yield a correction: the left one is
      written at the index (slot 0 when stale), the right one at the next
      slot (slot 0 again when stale), and each write into the last slot
      sends the mean of the buffer as it then stands. */
  lemma CorrectXYOBothSides(b: CorrectionBuffer, left: Correction, right: Correction,
                            now: int, dateLast: int, peremption: int)
    requires ValidBuffer(b)
    ensures var r := CorrectXYO(b, Some(left), Some(right), now, dateLast, peremption);
      var stale := Stale(now, dateLast, peremption);
      var n := |b.entries|;
      var at1 := WriteAt(b, stale);
      var mid := b.entries[at1 := Some(left)];
      var at2 := if stale then 0 else NextIndex(at1, n);
      && r.0.entries == mid[at2 := Some(right)]
      && r.0.index == NextIndex(at2, n)
      && |r.1| == B2N(at1 + 1 == n) + B2N(at2 + 1 == n)
      && (at1 + 1 == n ==> AllWritten(mid) && r.1[0] == Average(Values(mid)))
      && (at2 + 1 == n ==> AllWritten(r.0.entries) && r.1[|r.1| - 1] == Average(Values(r.0.entries)))
  {
    var stale := Stale(now, dateLast, peremption);
    var (b1, sent1) := AddCorrection(b, left, stale);
    var (b2, sent2) := AddCorrection(b1, right, stale);
    assert CorrectXYO(b, Some(left), Some(right), now, dateLast, peremption) == (b2, Sent(sent1) + Sent(sent2), now);
  }

  /** The mean a write sends, if any, as a list. */
  function Sent(o: Option<Correction>): (cs: seq<Correction>)
    ensures |cs| == if o.Some? then 1 else 0
    ensures o.Some? ==> cs[0] == o.value
  {
    if o.Some? then [o.value] else []
  }

  /** After a stale pass in which both sides yield a correction, the right
      one overwrites the left one in slot 0 (with a buffer of more than one
      slot): only one of the two is kept. */
  lemma StalePassKeepsOneCorrection(b: CorrectionBuffer, left: Correction, right: Correction,
                                    now: int, dateLast: int, peremption: int)
    requires ValidBuffer(b) && |b.entries| > 1 && Stale(now, dateLast, peremption)
    ensures var r := CorrectXYO(b, Some(left), Some(right), now, dateLast, peremption);
      r.0.index == 1 && r.0.entries[0] == Some(right) && r.1 == []
  {
  }

  /** With fresh passes that do not fill the buffer, corrections go to
      consecutive slots after the index and the earlier slots are kept. */
  lemma {:induction false} FreshCorrectionsFill(b: CorrectionBuffer, cs: seq<Correction>)
    requires ValidBuffer(b) && b.index + |cs| < |b.entries|
    ensures var r := AddAll(b, cs);
      r.index == b.index + |cs| && r.entries[..b.index] == b.entries[..b.index]
      && forall k :: 0 <= k < |cs| ==> r.entries[b.index + k] == Some(cs[k])
    decreases |cs|
  {
    if |cs| > 0 {
      var b1 := AddCorrection(b, cs[0], false).0;
      FreshCorrectionsFill(b1, cs[1..]);
      var r := AddAll(b, cs);
      forall k | 0 <= k < |cs|
        ensures r.entries[b.index + k] == Some(cs[k])
      {
        if k > 0 {
          assert cs[1..][k - 1] == cs[k];
        }
      }
    }
  }

  /** Fresh corrections added one after the other, none filling the buffer. */
  function AddAll(b: CorrectionBuffer, cs: seq<Correction>): (r: CorrectionBuffer)
    requires ValidBuffer(b) && b.index + |cs| < |b.entries|
    ensures ValidBuffer(r) && |r.entries| == |b.entries|
    decreases |cs|
  {
    if |cs| == 0 then b else AddAll(AddCorrection(b, cs[0], false).0, cs[1..])
  }

  /** The fresh correction that fills the buffer sends the mean of the
      corrections written since the last reset, its own included: from an
      empty buffer of size n, n fresh corrections send one mean, of those
      n corrections, and the buffer restarts at 0. */
  lemma {:induction false} FreshCorrectionsSendMean(b: CorrectionBuffer, cs: seq<Correction>)
    requires ValidBuffer(b) && |cs| > 0 && b.index + |cs| == |b.entries|
    ensures var prefix := cs[..|cs| - 1];
      var r := AddCorrection(AddAll(b, prefix), cs[|cs| - 1], false);
      && AddAll(b, prefix).index == |b.entries| - 1
      && r.0.index == 0
      && r.1 == Some(Average(Values(b.entries[..b.index]) + cs))
  {
    var prefix := cs[..|cs| - 1];
    var last := cs[|cs| - 1];
    FreshCorrectionsFill(b, prefix);
    var b1 := AddAll(b, prefix);
    var r := AddCorrection(b1, last, false);
    var n := |b.entries|;
    assert b1.index == n - 1;
    var full := b1.entries[n - 1 := Some(last)];
    assert r.0.entries == full;
    var expected := Values(b.entries[..b.index]) + cs;
    assert |expected| == n;
    forall k | 0 <= k < n
      ensures full[k] == Some(expected[k])
    {
      if k < b.index {
        assert b1.entries[..b.index][k] == b.entries[..b.index][k];
      } else if k < n - 1 {
        assert b1.entries[b.index + (k - b.index)] == Some(prefix[k - b.index]);
      }
    }
    assert Values(full) == expected;
  }

  // ---------------------------------------------------------------------
  // updateObstaclesMobiles
  // ---------------------------------------------------------------------

  datatype Sensor = ToFArriereDroite | ToFArriereGauche | ToFLongArriere | OtherSensor

  /** One sensor's reading as updateObstaclesMobiles sees it: the measure,
      its sighting (getPositionVue), for each fixed obstacle and each game
      element whether it is visible from the sensor's height and within the
      approximation distance of the sighting (game elements we took do not
      count), and the enemy position the reading gives with whether it is
      off the table. */
  datatype Reading = Reading(
    sensor: Sensor, mesure: int, seen: Option<Point>,
    nearFixed: seq<bool>, nearElement: seq<bool>,
    enemy: Point, enemyOffTable: bool)

  /** What the loop does with a reading, and what it reports about the net. */
  datatype Outcome = Ignored | NetFull | Discarded | AddObstacle(at: Point)
  datatype NetReport = NoReport | SeenFull | SeenEmpty

  /** The net observation of the long rear sensor while the net is up. */
  function NetOf(r: Reading, filetBaisse: bool): (n: NetReport)
    ensures n != NoReport <==> r.sensor == ToFLongArriere && !filetBaisse
    ensures n == SeenFull <==> r.sensor == ToFLongArriere && !filetBaisse && 0 < r.mesure < 60
  {
    if r.sensor == ToFLongArriere && !filetBaisse then
      if 0 < r.mesure < 60 then SeenFull else SeenEmpty
    else NoReport
  }

  /** The loop body as written. The `continue` statements for fixed
      obstacles and game elements sit inside their own inner loops and end
      only an inner iteration, so a sighting near known geometry is still
      added as an enemy. */
  function ReadingOutcomeAsWritten(r: Reading, filetBaisse: bool): (o: Outcome)
    ensures o == Ignored <==>
      (filetBaisse && (r.sensor == ToFArriereDroite || r.sensor == ToFArriereGauche))
      || (NetOf(r, filetBaisse) != SeenFull && r.seen.None?)
    ensures o == NetFull <==> NetOf(r, filetBaisse) == SeenFull
    ensures o.AddObstacle? ==> r.seen.Some? && !r.enemyOffTable && o.at == r.enemy
  {
    if filetBaisse && (r.sensor == ToFArriereDroite || r.sensor == ToFArriereGauche) then Ignored
    else if NetOf(r, filetBaisse) == SeenFull then NetFull
    else if r.seen.None? then Ignored
    else if r.enemyOffTable then Discarded
    else AddObstacle(r.enemy)
  }

  predicate NearKnown(r: Reading)
  {
    (exists k :: 0 <= k < |r.nearFixed| && r.nearFixed[k])
    || (exists k :: 0 <= k < |r.nearElement| && r.nearElement[k])
  }

  /** As written, whether the sighting is near a fixed obstacle or a game
      element makes no difference: a reading on the table border is added. */
  lemma AsWrittenIgnoresKnownGeometry(r: Reading, filetBaisse: bool, nearFixed: seq<bool>, nearElement: seq<bool>)
    ensures ReadingOutcomeAsWritten(r.(nearFixed := nearFixed, nearElement := nearElement), filetBaisse)
      == ReadingOutcomeAsWritten(r, filetBaisse)
    ensures var seenFixed := Reading(OtherSensor, 100, Some(Point(0.0, 0.0)), [true], [], Point(0.0, 10.0), false);
      NearKnown(seenFixed) && ReadingOutcomeAsWritten(seenFixed, false) == AddObstacle(Point(0.0, 10.0))
  {
    var seenFixed := Reading(OtherSensor, 100, Some(Point(0.0, 0.0)), [true], [], Point(0.0, 10.0), false);
    assert seenFixed.nearFixed[0];
  }

  /** The loop body as intended: a sighting near a visible fixed obstacle
      or a game element still on the table is ignored. */
  function ReadingOutcome(r: Reading, filetBaisse: bool): (o: Outcome)
    ensures o.AddObstacle? ==> r.seen.Some? && !r.enemyOffTable && !NearKnown(r) && o.at == r.enemy
    ensures o == NetFull <==> NetOf(r, filetBaisse) == SeenFull
    ensures var w := ReadingOutcomeAsWritten(r, filetBaisse);
      if (w.AddObstacle? || w == Discarded) && NearKnown(r) then o == Ignored else o == w
  {
    if filetBaisse && (r.sensor == ToFArriereDroite || r.sensor == ToFArriereGauche) then Ignored
    else if NetOf(r, filetBaisse) == SeenFull then NetFull
    else if r.seen.None? then Ignored
    else if NearKnown(r) then Ignored
    else if r.enemyOffTable then Discarded
    else AddObstacle(r.enemy)
  }

  /** A reading's outcome as written, or as intended. */
  function OutcomeOf(r: Reading, filetBaisse: bool, asWritten: bool): Outcome
  {
    if asWritten then ReadingOutcomeAsWritten(r, filetBaisse) else ReadingOutcome(r, filetBaisse)
  }

  /** The positions of the readings that add an obstacle, in sensor order. */
  function AddingReadings(rs: seq<Reading>, filetBaisse: bool, asWritten: bool): (ks: seq<nat>)
    ensures forall i :: 0 <= i < |ks| ==> ks[i] < |rs| && OutcomeOf(rs[ks[i]], filetBaisse, asWritten).AddObstacle?
    ensures forall i, j :: 0 <= i < j < |ks| ==> ks[i] < ks[j]
    ensures forall k :: 0 <= k < |rs| && OutcomeOf(rs[k], filetBaisse, asWritten).AddObstacle? ==> k in ks
  {
    if |rs| == 0 then []
    else
      var rest := AddingReadings(rs[..|rs| - 1], filetBaisse, asWritten);
      assert forall k :: 0 <= k < |rs| - 1 ==> rs[..|rs| - 1][k] == rs[k];
      if OutcomeOf(rs[|rs| - 1], filetBaisse, asWritten).AddObstacle? then rest + [|rs| - 1] else rest
  }

  /** The enemy positions a sweep of all sensors adds: one per reading
      whose outcome adds an obstacle, that outcome's position, in sensor
      order. `asWritten` chooses the loop body as written or as intended. */
  function AddedObstacles(rs: seq<Reading>, filetBaisse: bool, asWritten: bool): (ps: seq<Point>)
    ensures var ks := AddingReadings(rs, filetBaisse, asWritten);
      |ps| == |ks| && forall i :: 0 <= i < |ps| ==> ps[i] == OutcomeOf(rs[ks[i]], filetBaisse, asWritten).at
    ensures forall k :: 0 <= k < |rs| && OutcomeOf(rs[k], filetBaisse, asWritten).AddObstacle? ==>
      OutcomeOf(rs[k], filetBaisse, asWritten).at in ps
  {
    if |rs| == 0 then []
    else
      var rest := AddedObstacles(rs[..|rs| - 1], filetBaisse, asWritten);
      var last := rs[|rs| - 1];
      assert forall k :: 0 <= k < |rs| - 1 ==> rs[..|rs| - 1][k] == rs[k];
      match OutcomeOf(last, filetBaisse, asWritten)
      case AddObstacle(p) => rest + [p]
      case _ => rest
  }

  /** As intended, no obstacle a sweep adds sits near known geometry or
      off the table. */
  lemma AddedObstaclesAreUnknown(rs: seq<Reading>, filetBaisse: bool, p: Point)
    requires p in AddedObstacles(rs, filetBaisse, false)
    ensures exists k :: 0 <= k < |rs| && rs[k].enemy == p && !NearKnown(rs[k]) && !rs[k].enemyOffTable
  {
    var ks := AddingReadings(rs, filetBaisse, false);
    var i :| 0 <= i < |AddedObstacles(rs, filetBaisse, false)| && AddedObstacles(rs, filetBaisse, false)[i] == p;
    assert rs[ks[i]].enemy == p;
  }

  /** Both loop bodies add the same obstacles, in the same order, when no
      reading sees near known geometry; otherwise the sweep as written may
      add an obstacle at a sighting of a fixed obstacle, which the intended
      one never adds. */
  lemma {:induction false} AddedObstaclesAsWrittenAgrees(rs: seq<Reading>, filetBaisse: bool)
    ensures (forall k :: 0 <= k < |rs| ==> !NearKnown(rs[k])) ==>
      AddedObstacles(rs, filetBaisse, true) == AddedObstacles(rs, filetBaisse, false)
    ensures var seenFixed := Reading(OtherSensor, 100, Some(Point(0.0, 0.0)), [true], [], Point(0.0, 10.0), false);
      AddedObstacles([seenFixed], false, true) == [Point(0.0, 10.0)]
      && AddedObstacles([seenFixed], false, false) == []
  {
    if (forall k :: 0 <= k < |rs| ==> !NearKnown(rs[k])) && |rs| > 0 {
      var init := rs[..|rs| - 1];
      assert forall k :: 0 <= k < |init| ==> init[k] == rs[k];
      AddedObstaclesAsWrittenAgrees(init, filetBaisse);
    }
    var seenFixed := Reading(OtherSensor, 100, Some(Point(0.0, 0.0)), [true], [], Point(0.0, 10.0), false);
    assert seenFixed.nearFixed[0];
    assert [seenFixed][..0] == [];
  }

  // ---------------------------------------------------------------------
  // Game elements the robot drives over
  // ---------------------------------------------------------------------

  /** The first loop of updateObstaclesMobiles from element k on: every
      game element colliding with the robot's footprint is marked as taken
      by us. */
  function MarkCollidingFrom(t: GameTable.Table, colliding: seq<bool>, taken: GameTable.Tribool, k: nat)
    : (r: GameTable.Table)
    requires GameTable.WellSized(t) && |colliding| == GameTable.NB_ELEMENTS && k <= GameTable.NB_ELEMENTS
    ensures GameTable.WellSized(r)
    ensures forall j :: 0 <= j < GameTable.NB_ELEMENTS ==>
      r.done[j] == if k <= j && colliding[j] then taken else t.done[j]
    decreases GameTable.NB_ELEMENTS - k
  {
    if k == GameTable.NB_ELEMENTS then t
    else
      var id := k as bv8;
      assert id as int == k;
      var t1 := if colliding[k] then GameTable.SetDone(t, id, taken) else t;
      assert forall j :: 0 <= j < GameTable.NB_ELEMENTS ==>
        t1.done[j] == if j == k && colliding[k] then taken else t.done[j];
      MarkCollidingFrom(t1, colliding, taken, k + 1)
  }

  function MarkColliding(t: GameTable.Table, colliding: seq<bool>, taken: GameTable.Tribool)
    : (r: GameTable.Table)
    requires GameTable.WellSized(t) && |colliding| == GameTable.NB_ELEMENTS
    ensures GameTable.WellSized(r)
    ensures forall j :: 0 <= j < GameTable.NB_ELEMENTS ==>
      r.done[j] == if colliding[j] then taken else t.done[j]
  {
    MarkCollidingFrom(t, colliding, taken, 0)
  }
}
