/** The pairwise conflict detector (src/conflict/conflict_detector.py, class ConflictDetector).

    Every segment between consecutive waypoints of the primary mission is compared with every
    segment of each other mission. A segment pair is reported when the two time intervals
    overlap, the two segments cross, and the two segments' start waypoints are closer than the
    safety buffer. The detector's only state, the buffer, is passed to each operation. */
module ConflictDetector {
  import opened Waypoints
  import opened WaypointSort
  import opened Missions
  import opened SegmentTests

  /** One detected conflict. The source's human-readable description is not modelled, and the
      separation is kept squared (`distanceSquared` is the square of the source's `distance`). */
  datatype Conflict = Conflict(
    location: Point,
    time: real,
    primaryDrone: string,
    conflictingDrone: string,
    distanceSquared: real)

  /** The detector compares timestamps, so it is only defined on fully timestamped missions. */
  predicate TimedMission(m: Mission) {
    AllTimestamped(m.waypoints)
  }

  /** The number of segments of a mission: `len(waypoints) - 1`, and none for no waypoints. */
  function SegmentCount(m: Mission): (n: nat)
    ensures n + 1 == |m.waypoints| || (n == 0 && m.waypoints == [])
    ensures |m.waypoints| <= 1 ==> n == 0
  {
    if |m.waypoints| == 0 then 0 else |m.waypoints| - 1
  }

  // ---------------------------------------------------------------------------------------
  // One segment pair (conflict_detector.py:69-102)

  /** The three-stage filter on the segment a0 -> a1 of drone `primary` and the segment b0 -> b1
      of drone `other`. */
  function SegmentConflict(a0: Waypoint, a1: Waypoint, b0: Waypoint, b1: Waypoint,
                           primary: string, other: string, buffer: real): (r: Option<Conflict>)
    requires Timed(a0) && Timed(a1) && Timed(b0) && Timed(b1)
    ensures r.Some? ==> FindIntersection(a0, a1, b0, b1).Some?
    ensures r.Some? ==> r.value.primaryDrone == primary && r.value.conflictingDrone == other
    ensures r.Some? ==> r.value.location == FindIntersection(a0, a1, b0, b1).value.point
    ensures r.Some? ==> r.value.distanceSquared == StartSeparationSquared(a0, b0)
    ensures r.Some? ==> WithinBuffer(r.value.distanceSquared, buffer)
    ensures r.Some? && Ts(a0) <= Ts(a1) ==> Ts(a0) <= r.value.time <= Ts(a1)
  {
    if !TemporalOverlap(a0, a1, b0, b1) then None
    else
      match FindIntersection(a0, a1, b0, b1)
      case None => None
      case Some(c) =>
        var d2 := StartSeparationSquared(a0, b0);
        if WithinBuffer(d2, buffer) then
          Some(Conflict(c.point, ConflictTime(a0, a1, c), primary, other, d2))
        else None
  }

  /** A segment pair is reported exactly when the time intervals overlap, the segments are not
      parallel and meet at parameters in [0, 1], and the start waypoints are strictly closer
      than the buffer; the crossing point then lies on both segments. */
  lemma SegmentConflictExact(a0: Waypoint, a1: Waypoint, b0: Waypoint, b1: Waypoint,
                             primary: string, other: string, buffer: real)
    requires Timed(a0) && Timed(a1) && Timed(b0) && Timed(b1)
    ensures var p1, p2, p3, p4 := Position(a0), Position(a1), Position(b0), Position(b1);
      (SegmentConflict(a0, a1, b0, b1, primary, other, buffer).Some?
       <==> && TemporalOverlap(a0, a1, b0, b1)
            && Denominator(p1, p2, p3, p4) != 0.0
            && (exists t, u :: MeetAt(p1, p2, p3, p4, t, u))
            && WithinBuffer(StartSeparationSquared(a0, b0), buffer))
    ensures var r := SegmentConflict(a0, a1, b0, b1, primary, other, buffer);
      r.Some? ==> exists t, u :: && MeetAt(Position(a0), Position(a1), Position(b0), Position(b1), t, u)
                                 && r.value.location == Lerp(Position(a0), Position(a1), t)
                                 && r.value.location == Lerp(Position(b0), Position(b1), u)
    ensures var r := SegmentConflict(a0, a1, b0, b1, primary, other, buffer);
      r.Some? ==> SourceTime(a0, a1, r.value)
  {
    FindIntersectionExact(a0, a1, b0, b1);
    var r := SegmentConflict(a0, a1, b0, b1, primary, other, buffer);
    if r.Some? {
      CrossingOnSecondSegment(a0, a1, b0, b1);
      var c := FindIntersection(a0, a1, b0, b1).value;
      assert MeetAt(Position(a0), Position(a1), Position(b0), Position(b1), c.t, c.u);
      RecordTime(a0, a1, b0, b1, c, r.value);
    }
  }

  /** The time of record `c` on the primary segment a0 -> a1 is the source's formula: the
      start time advanced by the duration scaled by the distance ratio of `c.location`, and
      that ratio exists. */
  ghost predicate SourceTime(a0: Waypoint, a1: Waypoint, c: Conflict)
    requires Timed(a0) && Timed(a1)
  {
    && (exists ratio :: IsDistanceRatio(ratio, Position(a0), Position(a1), c.location))
    && forall ratio :: IsDistanceRatio(ratio, Position(a0), Position(a1), c.location)
         ==> c.time == Interpolate(Ts(a0), Ts(a1), ratio)
  }

  lemma RecordTime(a0: Waypoint, a1: Waypoint, b0: Waypoint, b1: Waypoint, c: Crossing, k: Conflict)
    requires Timed(a0) && Timed(a1)
    requires FindIntersection(a0, a1, b0, b1) == Some(c)
    requires k.location == c.point && k.time == ConflictTime(a0, a1, c)
    ensures SourceTime(a0, a1, k)
  {
    assert IsDistanceRatio(c.t, Position(a0), Position(a1), k.location) by {
      TimeRatioIsDistanceRatio(a0, a1, b0, b1);
    }
    forall ratio | IsDistanceRatio(ratio, Position(a0), Position(a1), k.location)
      ensures k.time == Interpolate(Ts(a0), Ts(a1), ratio)
    {
      ConflictTimeAtCrossing(a0, a1, b0, b1, c, ratio);
    }
  }

  /** Segments whose time intervals are disjoint, or that are parallel, never conflict. */
  lemma NoOverlapOrParallelNoConflict(a0: Waypoint, a1: Waypoint, b0: Waypoint, b1: Waypoint,
                                      primary: string, other: string, buffer: real)
    requires Timed(a0) && Timed(a1) && Timed(b0) && Timed(b1)
    requires Ts(a1) < Ts(b0) || Ts(b1) < Ts(a0)
          || Denominator(Position(a0), Position(a1), Position(b0), Position(b1)) == 0.0
    ensures SegmentConflict(a0, a1, b0, b1, primary, other, buffer).None?
  {
  }

  /** Start waypoints exactly `buffer` apart do not conflict: the comparison is strict. */
  lemma SeparationAtBufferNoConflict(a0: Waypoint, a1: Waypoint, b0: Waypoint, b1: Waypoint,
                                     primary: string, other: string, buffer: real)
    requires Timed(a0) && Timed(a1) && Timed(b0) && Timed(b1)
    requires 0.0 <= buffer && StartSeparationSquared(a0, b0) == Square(buffer)
    ensures SegmentConflict(a0, a1, b0, b1, primary, other, buffer).None?
  {
    BufferTestIsDistanceTest(buffer, buffer);
  }

  /** The conflict of segment i of `m1` with segment j of `m2`, if any. */
  function ConflictAt(m1: Mission, m2: Mission, buffer: real, i: nat, j: nat): Option<Conflict>
    requires TimedMission(m1) && TimedMission(m2)
    requires i < SegmentCount(m1) && j < SegmentCount(m2)
  {
    SegmentConflict(m1.waypoints[i], m1.waypoints[i + 1], m2.waypoints[j], m2.waypoints[j + 1],
                    m1.droneId, m2.droneId, buffer)
  }

  function Emit(r: Option<Conflict>): seq<Conflict> {
    if r.Some? then [r.value] else []
  }

  // ---------------------------------------------------------------------------------------
  // One mission pair (conflict_detector.py:53-104)

  /** The conflicts of segment i of `m1` with the segments j, j + 1, ... of `m2`, in order. */
  function RowFrom(m1: Mission, m2: Mission, buffer: real, i: nat, j: nat): seq<Conflict>
    requires TimedMission(m1) && TimedMission(m2)
    requires i < SegmentCount(m1) && j <= SegmentCount(m2)
    decreases SegmentCount(m2) - j
  {
    if j == SegmentCount(m2) then []
    else Emit(ConflictAt(m1, m2, buffer, i, j)) + RowFrom(m1, m2, buffer, i, j + 1)
  }

  /** The conflicts of the segments i, i + 1, ... of `m1`, row after row. */
  function RowsFrom(m1: Mission, m2: Mission, buffer: real, i: nat): seq<Conflict>
    requires TimedMission(m1) && TimedMission(m2)
    requires i <= SegmentCount(m1)
    decreases SegmentCount(m1) - i
  {
    if i == SegmentCount(m1) then []
    else RowFrom(m1, m2, buffer, i, 0) + RowsFrom(m1, m2, buffer, i + 1)
  }

  /** All conflicts between two missions: primary segment outer, other segment inner. */
  function PairConflicts(m1: Mission, m2: Mission, buffer: real): seq<Conflict>
    requires TimedMission(m1) && TimedMission(m2)
  {
    RowsFrom(m1, m2, buffer, 0)
  }

  /** `_check_mission_pair`, with the source's nested loops; the inner loop is `CheckRow`. */
  method CheckMissionPair(m1: Mission, m2: Mission, safetyBuffer: real) returns (conflicts: seq<Conflict>)
    requires TimedMission(m1) && TimedMission(m2)
    ensures conflicts == PairConflicts(m1, m2, safetyBuffer)
  {
    conflicts := [];
    var i := 0;
    while i < |m1.waypoints| - 1
      invariant i <= SegmentCount(m1)
      invariant conflicts + RowsFrom(m1, m2, safetyBuffer, i) == PairConflicts(m1, m2, safetyBuffer)
      decreases |m1.waypoints| - i
    {
      conflicts := CheckRow(m1, m2, safetyBuffer, i, conflicts);
      i := i + 1;
    }
  }

  /** One pass of the inner loop of `_check_mission_pair`: appends to `conflicts` the records
      of segment i of `m1` against every segment of `m2`. */
  method CheckRow(m1: Mission, m2: Mission, safetyBuffer: real, i: nat, conflicts: seq<Conflict>)
    returns (result: seq<Conflict>)
    requires TimedMission(m1) && TimedMission(m2) && i < SegmentCount(m1)
    ensures result == conflicts + RowFrom(m1, m2, safetyBuffer, i, 0)
  {
    result := conflicts;
    var j := 0;
    while j < |m2.waypoints| - 1
      invariant j <= SegmentCount(m2)
      invariant result + RowFrom(m1, m2, safetyBuffer, i, j) == conflicts + RowFrom(m1, m2, safetyBuffer, i, 0)
      decreases |m2.waypoints| - j
    {
      var wp1Start, wp1End := m1.waypoints[i], m1.waypoints[i + 1];
      var wp2Start, wp2End := m2.waypoints[j], m2.waypoints[j + 1];
      if TemporalOverlap(wp1Start, wp1End, wp2Start, wp2End) {
        var conflictPoint := FindIntersection(wp1Start, wp1End, wp2Start, wp2End);
        if conflictPoint.Some? {
          var conflictTime := ConflictTime(wp1Start, wp1End, conflictPoint.value);
          var distanceSquared := StartSeparationSquared(wp1Start, wp2Start);
          if WithinBuffer(distanceSquared, safetyBuffer) {
            result := result + [Conflict(conflictPoint.value.point, conflictTime,
                                         m1.droneId, m2.droneId, distanceSquared)];
          }
        }
      }
      j := j + 1;
    }
  }

  lemma {:induction false} RowFromMembers(m1: Mission, m2: Mission, buffer: real, i: nat, j: nat, c: Conflict)
    requires TimedMission(m1) && TimedMission(m2)
    requires i < SegmentCount(m1) && j <= SegmentCount(m2)
    ensures c in RowFrom(m1, m2, buffer, i, j)
        <==> exists k :: j <= k < SegmentCount(m2) && ConflictAt(m1, m2, buffer, i, k) == Some(c)
    decreases SegmentCount(m2) - j
  {
    if j < SegmentCount(m2) {
      RowFromMembers(m1, m2, buffer, i, j + 1, c);
    }
  }

  lemma {:induction false} RowsFromMembers(m1: Mission, m2: Mission, buffer: real, i: nat, c: Conflict)
    requires TimedMission(m1) && TimedMission(m2)
    requires i <= SegmentCount(m1)
    ensures c in RowsFrom(m1, m2, buffer, i)
        <==> exists k, l :: i <= k < SegmentCount(m1) && 0 <= l < SegmentCount(m2)
                            && ConflictAt(m1, m2, buffer, k, l) == Some(c)
    decreases SegmentCount(m1) - i
  {
    if i < SegmentCount(m1) {
      RowFromMembers(m1, m2, buffer, i, 0, c);
      RowsFromMembers(m1, m2, buffer, i + 1, c);
      assert RowsFrom(m1, m2, buffer, i) == RowFrom(m1, m2, buffer, i, 0) + RowsFrom(m1, m2, buffer, i + 1);
      if c in RowsFrom(m1, m2, buffer, i) {
        if c in RowFrom(m1, m2, buffer, i, 0) {
          var l :| 0 <= l < SegmentCount(m2) && ConflictAt(m1, m2, buffer, i, l) == Some(c);
        }
      } else {
        forall k, l | i <= k < SegmentCount(m1) && 0 <= l < SegmentCount(m2)
          ensures ConflictAt(m1, m2, buffer, k, l) != Some(c)
        {
          if k == i {
            assert !(exists l' :: 0 <= l' < SegmentCount(m2) && ConflictAt(m1, m2, buffer, i, l') == Some(c));
          }
        }
      }
    }
  }

  /** A record is reported for two missions exactly when some segment pair conflicts. */
  lemma PairConflictsMembers(m1: Mission, m2: Mission, buffer: real, c: Conflict)
    requires TimedMission(m1) && TimedMission(m2)
    ensures c in PairConflicts(m1, m2, buffer)
        <==> exists i, j :: 0 <= i < SegmentCount(m1) && 0 <= j < SegmentCount(m2)
                            && ConflictAt(m1, m2, buffer, i, j) == Some(c)
  {
    RowsFromMembers(m1, m2, buffer, 0, c);
  }

  /** Two missions are conflict-free exactly when no segment pair conflicts. */
  lemma PairConflictsEmpty(m1: Mission, m2: Mission, buffer: real)
    requires TimedMission(m1) && TimedMission(m2)
    ensures PairConflicts(m1, m2, buffer) == []
        <==> forall i, j :: 0 <= i < SegmentCount(m1) && 0 <= j < SegmentCount(m2)
                            ==> ConflictAt(m1, m2, buffer, i, j).None?
  {
    var all := PairConflicts(m1, m2, buffer);
    if all != [] {
      PairConflictsMembers(m1, m2, buffer, all[0]);
    }
    forall i, j | 0 <= i < SegmentCount(m1) && 0 <= j < SegmentCount(m2)
                  && ConflictAt(m1, m2, buffer, i, j).Some?
      ensures all != []
    {
      PairConflictsMembers(m1, m2, buffer, ConflictAt(m1, m2, buffer, i, j).value);
    }
  }

  lemma {:induction false} RowFromLength(m1: Mission, m2: Mission, buffer: real, i: nat, j: nat)
    requires TimedMission(m1) && TimedMission(m2)
    requires i < SegmentCount(m1) && j <= SegmentCount(m2)
    ensures |RowFrom(m1, m2, buffer, i, j)| <= SegmentCount(m2) - j
    decreases SegmentCount(m2) - j
  {
    if j < SegmentCount(m2) {
      RowFromLength(m1, m2, buffer, i, j + 1);
    }
  }

  lemma {:induction false} RowsFromLength(m1: Mission, m2: Mission, buffer: real, i: nat)
    requires TimedMission(m1) && TimedMission(m2)
    requires i <= SegmentCount(m1)
    ensures |RowsFrom(m1, m2, buffer, i)| <= (SegmentCount(m1) - i) * SegmentCount(m2)
    decreases SegmentCount(m1) - i
  {
    if i < SegmentCount(m1) {
      RowFromLength(m1, m2, buffer, i, 0);
      RowsFromLength(m1, m2, buffer, i + 1);
      assert (SegmentCount(m1) - i) * SegmentCount(m2)
          == SegmentCount(m2) + (SegmentCount(m1) - (i + 1)) * SegmentCount(m2);
    }
  }

  /** At most one record per segment pair, so none when either mission has a single
      waypoint. */
  lemma PairConflictsBound(m1: Mission, m2: Mission, buffer: real)
    requires TimedMission(m1) && TimedMission(m2)
    ensures |PairConflicts(m1, m2, buffer)| <= SegmentCount(m1) * SegmentCount(m2)
    ensures |m1.waypoints| <= 1 || |m2.waypoints| <= 1 ==> PairConflicts(m1, m2, buffer) == []
  {
    RowsFromLength(m1, m2, buffer, 0);
  }

  /** Segment i of `m1` and segment j of `m2` both pass through `p`, at parameters in [0, 1]. */
  ghost predicate CrossesAt(m1: Mission, m2: Mission, i: nat, j: nat, p: Point)
    requires i < SegmentCount(m1) && j < SegmentCount(m2)
  {
    var p1, p2 := Position(m1.waypoints[i]), Position(m1.waypoints[i + 1]);
    var p3, p4 := Position(m2.waypoints[j]), Position(m2.waypoints[j + 1]);
    exists t, u :: MeetAt(p1, p2, p3, p4, t, u) && p == Lerp(p1, p2, t)
  }

  /** Every record of a mission pair names the primary and the other drone, lies where two
      segments cross, carries the time the source computes on the primary segment and, for a
      primary mission built by `CreateMission`, falls within its time window. */
  lemma PairConflictsTagged(m1: Mission, m2: Mission, buffer: real, c: Conflict)
    requires TimedMission(m1) && TimedMission(m2)
    requires c in PairConflicts(m1, m2, buffer)
    ensures c.primaryDrone == m1.droneId && c.conflictingDrone == m2.droneId
    ensures WithinBuffer(c.distanceSquared, buffer)
    ensures exists i, j :: 0 <= i < SegmentCount(m1) && 0 <= j < SegmentCount(m2)
                           && CrossesAt(m1, m2, i, j, c.location)
                           && SourceTime(m1.waypoints[i], m1.waypoints[i + 1], c)
    ensures ValidMission(m1) ==> m1.startTime <= c.time <= m1.endTime
  {
    PairConflictsMembers(m1, m2, buffer, c);
    var i, j :| 0 <= i < SegmentCount(m1) && 0 <= j < SegmentCount(m2)
                && ConflictAt(m1, m2, buffer, i, j) == Some(c);
    var a0, a1, b0, b1 := m1.waypoints[i], m1.waypoints[i + 1], m2.waypoints[j], m2.waypoints[j + 1];
    SegmentConflictExact(a0, a1, b0, b1, m1.droneId, m2.droneId, buffer);
    assert CrossesAt(m1, m2, i, j, c.location);
    if ValidMission(m1) {
      assert a0 in m1.waypoints && a1 in m1.waypoints;
      assert Ts(a0) <= Ts(a1);
    }
  }

  // ---------------------------------------------------------------------------------------
  // The primary mission against all others (conflict_detector.py:29-51)

  /** The records of `primary` against each of `others`, concatenated in the order of
      `others`. */
  function AllConflicts(primary: Mission, others: seq<Mission>, buffer: real): seq<Conflict>
    requires TimedMission(primary) && forall k :: 0 <= k < |others| ==> TimedMission(others[k])
    decreases |others|
  {
    if others == [] then []
    else PairConflicts(primary, others[0], buffer) + AllConflicts(primary, others[1..], buffer)
  }

  /** The status string of a conflict list. */
  function Status(conflicts: seq<Conflict>): (s: string)
    ensures s == "clear" <==> conflicts == []
    ensures s == "clear" || s == "conflict detected"
  {
    if conflicts == [] then "clear" else "conflict detected"
  }

  /** `check_mission`: the status and the records of the primary mission against the others. */
  method CheckMission(primary: Mission, others: seq<Mission>, safetyBuffer: real)
    returns (status: string, conflicts: seq<Conflict>)
    requires TimedMission(primary) && forall k :: 0 <= k < |others| ==> TimedMission(others[k])
    ensures conflicts == AllConflicts(primary, others, safetyBuffer)
    ensures status == Status(conflicts)
  {
    conflicts := [];
    var k := 0;
    while k < |others|
      invariant k <= |others|
      invariant conflicts + AllConflicts(primary, others[k..], safetyBuffer)
             == AllConflicts(primary, others, safetyBuffer)
    {
      var missionConflicts := CheckMissionPair(primary, others[k], safetyBuffer);
      assert others[k..][1..] == others[k + 1..];
      conflicts := conflicts + missionConflicts;
      k := k + 1;
    }
    assert others[k..] == [];
    if conflicts != [] {
      return "conflict detected", conflicts;
    }
    return "clear", [];
  }

  lemma {:induction false} AllConflictsMembers(primary: Mission, others: seq<Mission>, buffer: real, c: Conflict)
    requires TimedMission(primary) && forall k :: 0 <= k < |others| ==> TimedMission(others[k])
    ensures c in AllConflicts(primary, others, buffer)
        <==> exists k :: 0 <= k < |others| && c in PairConflicts(primary, others[k], buffer)
    decreases |others|
  {
    if others != [] {
      AllConflictsMembers(primary, others[1..], buffer, c);
      if exists k :: 0 <= k < |others| && c in PairConflicts(primary, others[k], buffer) {
        var k :| 0 <= k < |others| && c in PairConflicts(primary, others[k], buffer);
        if k > 0 {
          assert others[1..][k - 1] == others[k];
        }
      }
      if exists k :: 0 <= k < |others[1..]| && c in PairConflicts(primary, others[1..][k], buffer) {
        var k :| 0 <= k < |others[1..]| && c in PairConflicts(primary, others[1..][k], buffer);
        assert others[k + 1] == others[1..][k];
      }
    }
  }

  /** The result is "clear" exactly when no other mission conflicts with the primary one, and
      every record names the primary drone and one of the other missions' drones. */
  lemma CheckMissionMeaning(primary: Mission, others: seq<Mission>, buffer: real)
    requires TimedMission(primary) && forall k :: 0 <= k < |others| ==> TimedMission(others[k])
    ensures Status(AllConflicts(primary, others, buffer)) == "clear"
        <==> forall k :: 0 <= k < |others| ==> PairConflicts(primary, others[k], buffer) == []
    ensures forall c :: c in AllConflicts(primary, others, buffer) ==>
      c.primaryDrone == primary.droneId
      && exists k :: 0 <= k < |others| && c.conflictingDrone == others[k].droneId
  {
    var all := AllConflicts(primary, others, buffer);
    if all != [] {
      AllConflictsMembers(primary, others, buffer, all[0]);
    }
    forall k | 0 <= k < |others| && PairConflicts(primary, others[k], buffer) != []
      ensures all != []
    {
      var c := PairConflicts(primary, others[k], buffer)[0];
      AllConflictsMembers(primary, others, buffer, c);
    }
    forall c | c in all
      ensures c.primaryDrone == primary.droneId
      ensures exists k :: 0 <= k < |others| && c.conflictingDrone == others[k].droneId
    {
      AllConflictsMembers(primary, others, buffer, c);
      var k :| 0 <= k < |others| && c in PairConflicts(primary, others[k], buffer);
      PairConflictsTagged(primary, others[k], buffer, c);
    }
  }
}
