/** Concrete scenarios for the detector, after the demonstration missions of
    src/test_conflict_visualization.py and a few constructed ones. Timestamps are seconds
    since midnight (10:00 is 36000), the safety buffer is the default 50. */
module Scenarios {
  import opened Waypoints
  import opened WaypointSort
  import opened Missions
  import opened SegmentTests
  import opened ConflictDetector

  function At(x: real, y: real, ts: real): Waypoint {
    Waypoint(x, y, None, Some(ts))
  }

  /** Two segments that both keep a constant y are parallel, and never conflict. */
  lemma HorizontalSegmentsNoConflict(a0: Waypoint, a1: Waypoint, b0: Waypoint, b1: Waypoint,
                                     primary: string, other: string, buffer: real)
    requires Timed(a0) && Timed(a1) && Timed(b0) && Timed(b1)
    requires a0.y == a1.y && b0.y == b1.y
    ensures SegmentConflict(a0, a1, b0, b1, primary, other, buffer).None?
  {
    var p1, p2, p3, p4 := Position(a0), Position(a1), Position(b0), Position(b1);
    assert p1.y - p2.y == 0.0 && p3.y - p4.y == 0.0;
    assert Denominator(p1, p2, p3, p4) == 0.0;
    NoOverlapOrParallelNoConflict(a0, a1, b0, b1, primary, other, buffer);
  }

  /** The two parallel missions of the conflict-free demonstration: the primary drone flies
      along y = 0 and the other along y = 100, both from 10:00 to 10:10. */
  lemma ParallelPathsClear()
    ensures var primary := Mission([At(0.0, 0.0, 36000.0), At(100.0, 0.0, 36300.0), At(200.0, 0.0, 36600.0)],
                                   36000.0, 36600.0, "primary");
            var traffic := Mission([At(0.0, 100.0, 36000.0), At(100.0, 100.0, 36300.0), At(200.0, 100.0, 36600.0)],
                                   36000.0, 36600.0, "traffic1");
      && TimedMission(primary) && TimedMission(traffic)
      && AllConflicts(primary, [traffic], 50.0) == []
      && Status(AllConflicts(primary, [traffic], 50.0)) == "clear"
  {
    var primary := Mission([At(0.0, 0.0, 36000.0), At(100.0, 0.0, 36300.0), At(200.0, 0.0, 36600.0)],
                           36000.0, 36600.0, "primary");
    var traffic := Mission([At(0.0, 100.0, 36000.0), At(100.0, 100.0, 36300.0), At(200.0, 100.0, 36600.0)],
                           36000.0, 36600.0, "traffic1");
    assert TimedMission(primary) && TimedMission(traffic);
    forall i, j | 0 <= i < SegmentCount(primary) && 0 <= j < SegmentCount(traffic)
      ensures ConflictAt(primary, traffic, 50.0, i, j).None?
    {
      var a0, a1 := primary.waypoints[i], primary.waypoints[i + 1];
      var b0, b1 := traffic.waypoints[j], traffic.waypoints[j + 1];
      HorizontalSegmentsNoConflict(a0, a1, b0, b1, "primary", "traffic1", 50.0);
    }
    PairConflictsEmpty(primary, traffic, 50.0);
    assert [traffic][1..] == [];
  }

  /** The missions of the head-on demonstration: the two drones fly the same line y = 100 in
      opposite directions from 10:00 to 10:10 and are both at (100, 100) at 10:05. */
  function HeadOnPrimary(): Mission {
    Mission([At(0.0, 100.0, 36000.0), At(100.0, 100.0, 36300.0), At(200.0, 100.0, 36600.0)],
            36000.0, 36600.0, "primary")
  }

  function HeadOnTraffic(): Mission {
    Mission([At(200.0, 100.0, 36000.0), At(100.0, 100.0, 36300.0), At(0.0, 100.0, 36600.0)],
            36000.0, 36600.0, "traffic1")
  }

  /** Both head-on missions are accepted as they are, and they share a waypoint in space and
      time. */
  lemma HeadOnMissionsBuilt()
    ensures CreateMission(HeadOnPrimary().waypoints, 36000.0, 36600.0, "primary") == Ok(HeadOnPrimary())
    ensures CreateMission(HeadOnTraffic().waypoints, 36000.0, 36600.0, "traffic1") == Ok(HeadOnTraffic())
    ensures Position(HeadOnPrimary().waypoints[1]) == Position(HeadOnTraffic().waypoints[1])
    ensures HeadOnPrimary().waypoints[1].timestamp == HeadOnTraffic().waypoints[1].timestamp
  {
    AlreadySorted(HeadOnPrimary());
    AlreadySorted(HeadOnTraffic());
  }

  /** Every segment pair of the head-on missions is collinear, so its intersection denominator
      is zero and the detector reports nothing. */
  lemma HeadOnCollinearClear()
    ensures TimedMission(HeadOnPrimary()) && TimedMission(HeadOnTraffic())
    ensures AllConflicts(HeadOnPrimary(), [HeadOnTraffic()], 50.0) == []
    ensures Status(AllConflicts(HeadOnPrimary(), [HeadOnTraffic()], 50.0)) == "clear"
  {
    var primary, traffic := HeadOnPrimary(), HeadOnTraffic();
    assert TimedMission(primary) && TimedMission(traffic);
    forall i, j | 0 <= i < SegmentCount(primary) && 0 <= j < SegmentCount(traffic)
      ensures ConflictAt(primary, traffic, 50.0, i, j).None?
    {
      var a0, a1 := primary.waypoints[i], primary.waypoints[i + 1];
      var b0, b1 := traffic.waypoints[j], traffic.waypoints[j + 1];
      HorizontalSegmentsNoConflict(a0, a1, b0, b1, "primary", "traffic1", 50.0);
    }
    PairConflictsEmpty(primary, traffic, 50.0);
    assert [traffic][1..] == [];
  }

  /** A three-waypoint timestamped list in increasing time order, inside the window, is taken
      as it is. */
  lemma AlreadySorted(m: Mission)
    requires |m.waypoints| == 3 && AllTimestamped(m.waypoints)
    requires Key(m.waypoints[0]) <= Key(m.waypoints[1]) <= Key(m.waypoints[2])
    requires m.startTime == Key(m.waypoints[0]) && Key(m.waypoints[2]) == m.endTime
    requires m.startTime < m.endTime
    ensures CreateMission(m.waypoints, m.startTime, m.endTime, m.droneId) == Ok(m)
  {
    var ws := m.waypoints;
    assert ws[..2][..1] == [ws[0]] && [ws[0]][..0] == [];
    assert ws[..2] == [ws[0], ws[1]] && ws[..3] == ws;
    assert StableSortByKey([ws[0]]) == [ws[0]];
    assert StableSortByKey(ws[..2]) == Insert([ws[0]], ws[1]) == ws[..2];
    assert StableSortByKey(ws) == Insert(ws[..2], ws[2]) == ws;
  }

  /** A crossing with nearby start points: the primary drone flies (0, 100) -> (200, 100) and the
      other (10, 90) -> (10, 300), both from 10:00 to 10:10. The segments cross at (10, 100),
      5% along the primary segment, so the conflict time is 10:00:30; the start points are
      sqrt(200) apart, well inside the buffer. */
  lemma CrossingReported()
    ensures var primary := Mission([At(0.0, 100.0, 36000.0), At(200.0, 100.0, 36600.0)], 36000.0, 36600.0, "primary");
            var traffic := Mission([At(10.0, 90.0, 36000.0), At(10.0, 300.0, 36600.0)], 36000.0, 36600.0, "traffic1");
      && TimedMission(primary) && TimedMission(traffic)
      && AllConflicts(primary, [traffic], 50.0)
         == [Conflict(Point(10.0, 100.0), 36030.0, "primary", "traffic1", 200.0)]
  {
    var a0, a1 := At(0.0, 100.0, 36000.0), At(200.0, 100.0, 36600.0);
    var b0, b1 := At(10.0, 90.0, 36000.0), At(10.0, 300.0, 36600.0);
    var primary := Mission([a0, a1], 36000.0, 36600.0, "primary");
    var traffic := Mission([b0, b1], 36000.0, 36600.0, "traffic1");
    assert Denominator(Position(a0), Position(a1), Position(b0), Position(b1)) == 42000.0;
    assert NumeratorT(Position(a0), Position(a1), Position(b0), Position(b1)) == 2100.0;
    assert 2100.0 / 42000.0 == 0.05;
    assert FindIntersection(a0, a1, b0, b1).Some?;
    var c := FindIntersection(a0, a1, b0, b1).value;
    assert c.t == 0.05;
    assert c.point == Point(10.0, 100.0);
    assert ConflictTime(a0, a1, c) == 36030.0;
    assert StartSeparationSquared(a0, b0) == 200.0;
    assert ConflictAt(primary, traffic, 50.0, 0, 0)
        == Some(Conflict(Point(10.0, 100.0), 36030.0, "primary", "traffic1", 200.0));
    assert [traffic][1..] == [];
  }

  /** The segments of `SimultaneousCrossingFarStartsClear`. */
  function FarA0(): Waypoint { At(0.0, 100.0, 36000.0) }
  function FarA1(): Waypoint { At(200.0, 100.0, 36600.0) }
  function FarB0(): Waypoint { At(100.0, 0.0, 36000.0) }
  function FarB1(): Waypoint { At(100.0, 200.0, 36600.0) }

  /** Crossing segments are judged by the distance between their start points only: the
      primary drone flies (0, 100) -> (200, 100) and the other (100, 0) -> (100, 200), both from
      10:00 to 10:10. Halfway along their segments both drones are at (100, 100) at 10:05, yet
      their start points are sqrt(20000) apart, beyond the buffer, and nothing is reported. */
  lemma SimultaneousCrossingFarStartsClear()
    ensures AllConflicts(Mission([FarA0(), FarA1()], 36000.0, 36600.0, "primary"),
                         [Mission([FarB0(), FarB1()], 36000.0, 36600.0, "traffic1")], 50.0) == []
    ensures FindIntersection(FarA0(), FarA1(), FarB0(), FarB1()).Some?
    ensures Lerp(Position(FarA0()), Position(FarA1()), 0.5) == Lerp(Position(FarB0()), Position(FarB1()), 0.5)
    ensures Interpolate(Ts(FarA0()), Ts(FarA1()), 0.5) == Interpolate(Ts(FarB0()), Ts(FarB1()), 0.5)
  {
    FarStartsNoRecord();
    PrimaryHalfwayPoint();
    TrafficHalfwayPoint();
    PrimaryHalfwayTime();
    TrafficHalfwayTime();
  }

  // The halfway positions and times of the two drones of `SimultaneousCrossingFarStartsClear`.

  lemma PrimaryHalfwayPoint()
    ensures Lerp(Position(FarA0()), Position(FarA1()), 0.5) == Point(100.0, 100.0)
  {
    HalfwayAlong(FarA0(), FarA1(), Point(100.0, 100.0), 36300.0);
  }

  lemma TrafficHalfwayPoint()
    ensures Lerp(Position(FarB0()), Position(FarB1()), 0.5) == Point(100.0, 100.0)
  {
    HalfwayAlong(FarB0(), FarB1(), Point(100.0, 100.0), 36300.0);
  }

  lemma PrimaryHalfwayTime()
    ensures Interpolate(Ts(FarA0()), Ts(FarA1()), 0.5) == 36300.0
  {
    HalfwayAlong(FarA0(), FarA1(), Point(100.0, 100.0), 36300.0);
  }

  lemma TrafficHalfwayTime()
    ensures Interpolate(Ts(FarB0()), Ts(FarB1()), 0.5) == 36300.0
  {
    HalfwayAlong(FarB0(), FarB1(), Point(100.0, 100.0), 36300.0);
  }

  /** The midpoint of a segment, and the middle of its time interval. */
  lemma HalfwayAlong(w0: Waypoint, w1: Waypoint, mid: Point, tau: real)
    requires Timed(w0) && Timed(w1)
    requires w0.x + w1.x == 2.0 * mid.x && w0.y + w1.y == 2.0 * mid.y
    requires Ts(w0) + Ts(w1) == 2.0 * tau
    ensures Lerp(Position(w0), Position(w1), 0.5) == mid
    ensures Interpolate(Ts(w0), Ts(w1), 0.5) == tau
  {
  }

  lemma FarStartsNoRecord()
    ensures FindIntersection(FarA0(), FarA1(), FarB0(), FarB1()).Some?
    ensures AllConflicts(Mission([FarA0(), FarA1()], 36000.0, 36600.0, "primary"),
                         [Mission([FarB0(), FarB1()], 36000.0, 36600.0, "traffic1")], 50.0) == []
  {
    var a0, a1, b0, b1 := FarA0(), FarA1(), FarB0(), FarB1();
    var primary := Mission([a0, a1], 36000.0, 36600.0, "primary");
    var traffic := Mission([b0, b1], 36000.0, 36600.0, "traffic1");
    assert TimedMission(primary) && TimedMission(traffic);
    assert Denominator(Position(a0), Position(a1), Position(b0), Position(b1)) == 40000.0;
    assert NumeratorT(Position(a0), Position(a1), Position(b0), Position(b1)) == 20000.0;
    assert NumeratorU(Position(a0), Position(a1), Position(b0), Position(b1)) == 20000.0;
    assert 20000.0 / 40000.0 == 0.5;
    assert FindIntersection(a0, a1, b0, b1).Some?;
    assert StartSeparationSquared(a0, b0) == 20000.0;
    assert !WithinBuffer(20000.0, 50.0);
    assert ConflictAt(primary, traffic, 50.0, 0, 0).None?;
    PairConflictsEmpty(primary, traffic, 50.0);
    assert [traffic][1..] == [];
  }

  /** Start points exactly 50 apart (30 and 40 along the axes) are not a conflict, although the
      segments cross at (30, 100) and the time intervals coincide. */
  lemma StartsAtBufferClear()
    ensures var a0, a1 := At(0.0, 100.0, 36000.0), At(200.0, 100.0, 36600.0);
            var b0, b1 := At(30.0, 60.0, 36000.0), At(30.0, 300.0, 36600.0);
      && FindIntersection(a0, a1, b0, b1).Some?
      && FindIntersection(a0, a1, b0, b1).value.point == Point(30.0, 100.0)
      && SegmentConflict(a0, a1, b0, b1, "primary", "traffic1", 50.0).None?
  {
    var a0, a1 := At(0.0, 100.0, 36000.0), At(200.0, 100.0, 36600.0);
    var b0, b1 := At(30.0, 60.0, 36000.0), At(30.0, 300.0, 36600.0);
    assert Denominator(Position(a0), Position(a1), Position(b0), Position(b1)) == 48000.0;
    assert NumeratorT(Position(a0), Position(a1), Position(b0), Position(b1)) == 7200.0;
    assert 7200.0 / 48000.0 == 0.15;
    assert FindIntersection(a0, a1, b0, b1).Some?;
    assert StartSeparationSquared(a0, b0) == Square(50.0);
    SeparationAtBufferNoConflict(a0, a1, b0, b1, "primary", "traffic1", 50.0);
  }

  /** Time intervals that only touch overlap: the primary segment ends at 10:05, when the other
      one starts, and the crossing is reported at 10:00:15, a time at which the other drone has
      not yet set off. */
  lemma TouchingIntervalsReported()
    ensures var a0, a1 := At(0.0, 100.0, 36000.0), At(200.0, 100.0, 36300.0);
            var b0, b1 := At(10.0, 90.0, 36300.0), At(10.0, 300.0, 36600.0);
      && TemporalOverlap(a0, a1, b0, b1)
      && SegmentConflict(a0, a1, b0, b1, "primary", "traffic1", 50.0)
         == Some(Conflict(Point(10.0, 100.0), 36015.0, "primary", "traffic1", 200.0))
      && 36015.0 < Ts(b0)
  {
    var a0, a1 := At(0.0, 100.0, 36000.0), At(200.0, 100.0, 36300.0);
    var b0, b1 := At(10.0, 90.0, 36300.0), At(10.0, 300.0, 36600.0);
    assert Denominator(Position(a0), Position(a1), Position(b0), Position(b1)) == 42000.0;
    assert NumeratorT(Position(a0), Position(a1), Position(b0), Position(b1)) == 2100.0;
    assert 2100.0 / 42000.0 == 0.05;
    assert FindIntersection(a0, a1, b0, b1).Some?;
    var c := FindIntersection(a0, a1, b0, b1).value;
    assert c.point == Point(10.0, 100.0);
    assert ConflictTime(a0, a1, c) == 36015.0;
    assert StartSeparationSquared(a0, b0) == 200.0;
  }
}
