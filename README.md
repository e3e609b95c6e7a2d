# Drone mission conflict detector — Dafny model

A model of the strategic deconfliction core of a drone-mission planner. A mission is a list
of waypoints (x, y, optional altitude, optional timestamp) with a time window and a drone
id. The detector takes a primary mission and a list of other missions. It compares every
segment between consecutive waypoints of the primary mission with every segment of each
other mission, and reports a conflict when three things hold:

1. the segments' time intervals overlap (endpoints included);
2. the segments cross, at parameters `t` and `u` in [0, 1] (parallel and collinear segments
   never cross);
3. the segments' *start* waypoints are strictly closer than the safety buffer (50 by
   default).

It returns the ordered list of conflicts and the status `"clear"` or `"conflict detected"`.

Modules, one per part of the program:

- `Waypoints` (`waypoints.dfy`): the waypoint record and its construction-time validation.
- `WaypointSort` (`waypoint_sort.dfy`): the in-place stable sort of a mission's waypoint
  list by timestamp. It is a method on an `array`, specified by a functional insertion sort
  that is proved ordered, a permutation and stable, and that is the only list with those
  three properties.
- `Missions` (`missions.dfy`): mission construction. `CreateMission` is the resulting value
  or error. `NewMission` performs the checks in the source's order on the caller's array,
  which it reorders in place.
- `SegmentTests` (`segment_tests.dfy`): the per-segment-pair tests. These are temporal
  overlap, the parametric intersection (Cramer's rule, exactly as written), the conflict
  time and the squared start separation.
- `ConflictDetector` (`conflict_detector.dfy`): the per-pair filter, the nested loops of
  `_check_mission_pair` and the loop of `check_mission`. Each loop is a method proved equal
  to a recursive specification function, and lemmas state what that function's result
  means.
- `Scenarios` (`scenarios.dfy`): the demonstration missions of the repository's driver
  scripts, and constructed edge cases, as concrete lemmas.

Numbers are exact reals, and timestamps are seconds on one clock. The source's square roots
are not modelled. Distances are kept squared, and `SegmentTests.BufferTestIsDistanceTest`
shows that comparing the squared distance with the squared buffer is the source's
`distance < safety_buffer`. The source's distance ratio `|q - p1| / |p2 - p1|` is
characterised without a root (`IsDistanceRatio`). `SegmentTests.TimeRatioIsDistanceRatio`
proves that the intersection parameter `t` is that ratio, and the only one.

Two behaviours of the code are worth knowing, and the model follows the code in both:

- **The head-on demonstration.** It is described as a collision (two drones flying the line
  y = 100 towards each other and meeting at (100, 100) at 10:05). The detector reports
  nothing: every segment pair is collinear, so the intersection denominator is zero
  (`Scenarios.HeadOnCollinearClear`).
- **The buffer test uses only the segments' start waypoints.** The Conflict record's comment
  calls this the distance at the conflict point, and `_calculate_distance` receives the
  crossing point but ignores it. So two drones at the same point at the same instant go
  unreported when their segments started far apart
  (`Scenarios.SimultaneousCrossingFarStartsClear`).

## Model

| member | source | states |
|---|---|---|
| Waypoints.ValidWaypoint | src/models/mission.py:15-18 | the waypoint invariant: non-negative coordinates, and a non-negative altitude when one is given |
| Waypoints.NewWaypoint | src/models/mission.py:13-18 | construction succeeds iff x >= 0, y >= 0 and a present z is >= 0, and returns the waypoint unchanged; a negative coordinate is reported before a negative altitude |
| WaypointSort.SortWaypoints | src/models/mission.py:36-37 | the in-place sort leaves the array equal to the stable sort by timestamp of its old contents |
| WaypointSort.SinkLast | src/models/mission.py:37 | one insertion step: the first i + 1 elements become the i-th element inserted after the last earlier element with timestamp at most its own; the rest of the array is untouched |
| WaypointSort.StableSortByKey | src/models/mission.py:37 | the sorted list, as an insertion sort that places each waypoint after every earlier one with a timestamp at most its own |
| WaypointSort.StableSortByKeyCorrect | src/models/mission.py:36-37 | the sorted list is ascending by timestamp, is a permutation of the input, and keeps the input order of waypoints with equal timestamps |
| WaypointSort.StableSortUnique | src/models/mission.py:37 | two lists that are both ascending and have the same order of equal-timestamp waypoints are equal, so every stable sort gives the same result |
| Missions.WithinWindow | src/models/mission.py:40-43 | every timestamped waypoint lies in the closed window [start, end]; untimed waypoints are skipped |
| Missions.CreateMission | src/models/mission.py:28-43 | the construction outcome: `NoWaypoints` for an empty list, then `EndNotAfterStart` when end <= start, then `TimestampOutsideWindow` when a timestamp of the sorted list is outside [start, end], else the mission with the sorted list |
| Missions.Canonical | src/models/mission.py:36-37 | the list after the sort: sorted by timestamp when every waypoint is timestamped, unchanged otherwise |
| Missions.ListAfterConstruction | src/models/mission.py:30-37 | the caller's list after construction: the sort is applied only when the two checks before it passed |
| Missions.CreateMissionOutcome | src/models/mission.py:28-43 | construction succeeds iff the list is non-empty, start < end and every timestamped waypoint lies in [start, end]; otherwise it fails with the first failing check's error (empty list, then window order, then timestamps) |
| Missions.CreateMissionValid | src/models/mission.py:35-43 | a constructed mission keeps the window and id, holds a permutation of the input that is sorted and stable when all waypoints are timestamped and the input order otherwise, and all its timestamps lie in the window |
| Missions.NewMission | src/models/mission.py:28-43 | the checks on the caller's list give CreateMission's outcome, and the sort is applied to the list exactly when the emptiness and window-order checks passed and every waypoint is timestamped, even if the timestamp check then fails |
| Missions.RejectedListIsReordered | src/models/mission.py:36-43 | the list [t = 5, t = 3] is rejected by the timestamp check for window [0, 4] and is [t = 3, t = 5] afterwards, because the sort runs before that check |
| SegmentTests.TemporalOverlap | src/conflict/conflict_detector.py:106-111 | the overlap test: false exactly when the first interval ends before the second starts or the second ends before the first starts |
| SegmentTests.TemporalOverlapMeaning | src/conflict/conflict_detector.py:106-111 | the overlap test is symmetric, and for ordered intervals it holds iff some instant lies in both closed intervals |
| SegmentTests.Denominator | src/conflict/conflict_detector.py:124 | the cross product of the two direction vectors, as the source writes it |
| SegmentTests.NumeratorT | src/conflict/conflict_detector.py:129 | the numerator of the primary segment's parameter t |
| SegmentTests.NumeratorU | src/conflict/conflict_detector.py:130 | the numerator of the other segment's parameter u, with the source's leading minus sign |
| SegmentTests.FindIntersection | src/conflict/conflict_detector.py:113-137 | a zero denominator yields no crossing; a crossing has t and u in [0, 1] and lies at p1 + t (p2 - p1) |
| SegmentTests.CrossingOnSecondSegment | src/conflict/conflict_detector.py:129-135 | a reported crossing also lies on the second segment, at parameter u |
| SegmentTests.CrossingFound | src/conflict/conflict_detector.py:124-135 | non-parallel segments meeting at parameters in [0, 1] are reported, with exactly those parameters |
| SegmentTests.FindIntersectionExact | src/conflict/conflict_detector.py:113-137 | a crossing is reported iff the denominator is non-zero and the segments meet at some t, u in [0, 1] |
| SegmentTests.ZeroLengthNeverIntersects | src/conflict/conflict_detector.py:124-127 | a segment of zero length never crosses anything |
| SegmentTests.ConflictTime | src/conflict/conflict_detector.py:139-152 | a zero-length primary segment gives its start time; for t in [0, 1] the time lies between the segment's two timestamps |
| SegmentTests.Interpolate | src/conflict/conflict_detector.py:149-150 | ratio 0 gives the start, ratio 1 the end, and a ratio in [0, 1] a time between them, in either order |
| SegmentTests.TimeRatioIsDistanceRatio | src/conflict/conflict_detector.py:145-147 | at a reported crossing the primary segment has positive length and t is the unique distance ratio of the source |
| SegmentTests.ConflictTimeAtCrossing | src/conflict/conflict_detector.py:145-150 | at a reported crossing the conflict time is the start time advanced by the distance ratio times the duration |
| SegmentTests.OnlyDistanceRatio | src/conflict/conflict_detector.py:145-147 | on a segment of positive length the point at parameter t >= 0 has distance ratio t and no other |
| SegmentTests.StartSeparationSquared | src/conflict/conflict_detector.py:154-156 | the squared distance between the two segments' start waypoints, not involving the crossing point; it is non-negative and zero exactly when the two start points coincide |
| SegmentTests.WithinBuffer | src/conflict/conflict_detector.py:91 | the buffer test on a squared distance: a positive buffer whose square exceeds it |
| SegmentTests.BufferTestIsDistanceTest | src/conflict/conflict_detector.py:87-91 | for a distance d >= 0 the squared test holds iff d < buffer |
| ConflictDetector.SegmentConflict | src/conflict/conflict_detector.py:69-102 | a reported pair carries the two drone ids, the crossing point, the squared start separation (which is within the buffer) and a time inside the primary segment's interval |
| ConflictDetector.SegmentConflictExact | src/conflict/conflict_detector.py:75-91 | a segment pair is reported iff the intervals overlap, the denominator is non-zero, the segments meet in [0, 1] and the start separation is strictly under the buffer; the location lies on both segments, and the time is the first segment's start time plus its duration scaled by the distance ratio from its start to the location |
| ConflictDetector.NoOverlapOrParallelNoConflict | src/conflict/conflict_detector.py:75-79 | disjoint time intervals or a zero denominator give no conflict |
| ConflictDetector.SeparationAtBufferNoConflict | src/conflict/conflict_detector.py:91 | start waypoints exactly one buffer apart give no conflict |
| ConflictDetector.SegmentCount | src/conflict/conflict_detector.py:67-68 | the number of loop iterations `len(waypoints) - 1`, and none for an empty or single-waypoint list |
| ConflictDetector.ConflictAt | src/conflict/conflict_detector.py:69-102 | the record, if any, of segment i of the primary mission against segment j of the other |
| ConflictDetector.RowFrom | src/conflict/conflict_detector.py:68-102 | the records of primary segment i against other segments j, j + 1, ..., in order |
| ConflictDetector.RowsFrom | src/conflict/conflict_detector.py:67-102 | the rows of primary segments i, i + 1, ..., one after the other |
| ConflictDetector.PairConflicts | src/conflict/conflict_detector.py:64-104 | all records of two missions, primary segment outer and other segment inner |
| ConflictDetector.AllConflicts | src/conflict/conflict_detector.py:42-47 | the pair records of the primary mission against each other mission, concatenated in the order of the other missions |
| ConflictDetector.CheckMissionPair | src/conflict/conflict_detector.py:64-104 | the nested loops return the records of all segment pairs, primary segment outer and other segment inner |
| ConflictDetector.CheckRow | src/conflict/conflict_detector.py:68-102 | one pass of the inner loop appends the records of primary segment i against every other segment, in order |
| ConflictDetector.PairConflictsMembers | src/conflict/conflict_detector.py:67-102 | a record is reported for two missions iff some segment pair produces it |
| ConflictDetector.PairConflictsEmpty | src/conflict/conflict_detector.py:67-104 | two missions are conflict-free iff no segment pair conflicts |
| ConflictDetector.PairConflictsBound | src/conflict/conflict_detector.py:67-68 | at most (n1 - 1)(n2 - 1) records, and none when either mission has at most one waypoint |
| ConflictDetector.PairConflictsTagged | src/conflict/conflict_detector.py:91-97 | every record names both drones, is within the buffer, lies where two segments cross, carries the primary segment's time at the distance ratio of the location along it, and for a valid primary mission falls in its window |
| ConflictDetector.Status | src/conflict/conflict_detector.py:49-51 | the status is "clear" iff there are no conflicts, and "conflict detected" otherwise |
| ConflictDetector.CheckMission | src/conflict/conflict_detector.py:42-51 | returns the per-mission records concatenated in the order of the other missions, with their status |
| ConflictDetector.AllConflictsMembers | src/conflict/conflict_detector.py:45-47 | a record is in the result iff it is a record of the primary mission against one of the others |
| ConflictDetector.CheckMissionMeaning | src/conflict/conflict_detector.py:42-51 | the status is "clear" iff no other mission conflicts, and every record names the primary drone and one of the other drones |
| Scenarios.ParallelPathsClear | src/test_conflict_visualization.py:79-101 | the parallel demonstration missions are clear |
| Scenarios.HeadOnMissionsBuilt | src/test_conflict_visualization.py:124-150 | both head-on missions are accepted unchanged and share a waypoint in space and time |
| Scenarios.HeadOnCollinearClear | src/test_conflict_visualization.py:124-150 | the head-on demonstration is reported clear, because every segment pair is collinear |
| Scenarios.CrossingReported | src/conflict/conflict_detector.py:67-102 | a crossing with start points sqrt(200) apart yields exactly one record, at (10, 100) and 10:00:30 |
| Scenarios.SimultaneousCrossingFarStartsClear | src/conflict/conflict_detector.py:87-91 | two drones whose segments cross and that are at the same point at the same instant (halfway, 36300 s) go unreported because their segments' start points are beyond the buffer |
| Scenarios.StartsAtBufferClear | src/conflict/conflict_detector.py:91 | crossing segments whose start points are exactly 50 apart are not reported |
| Scenarios.TouchingIntervalsReported | src/conflict/conflict_detector.py:110-111 | time intervals that only touch count as overlapping, and the reported time can precede the other drone's start |

## Left out

- Plotting and animation (`src/visualization/`): user interface and foreign libraries.
- Loading missions from JSON and random mission generation (`src/data/data_loader.py`): file
  I/O, date parsing, clock and randomness.
- The driver scripts and `check_mission_safety`: printing and summary-string formatting. Their
  scenarios appear as concrete lemmas in `Scenarios`.
- The `description` field of a conflict record: `%.2f` and `strftime` formatting.
- numpy machine arithmetic (float64, or int64 for integer coordinates, whose products in
  the denominator can wrap around), `np.sqrt` and timedelta rounding to microseconds: numbers
  are exact reals, and distances are squared (see `BufferTestIsDistanceTest` and
  `TimeRatioIsDistanceRatio`).
- ConflictDetector.SegmentConflict: the record holds the squared distance, not the distance.
- The `ConflictDetector` object: its only state is the immutable safety buffer, so each
  operation takes the buffer as a parameter.
- The `if conflict_point` and `if conflict_time` guards: every crossing tuple and every
  datetime is truthy, so these guards only mean "a crossing was found".
- Missions with an untimed waypoint in the detector: the source raises `TypeError` when such
  a timestamp is compared. It can also return normally, when the `or` of the overlap test
  short-circuits or when there are no segment pairs. The detector requires every waypoint to
  be timestamped (`TimedMission`) and does not model those runs.
- The altitude `z`: it is validated but never used by the detector.
- A Mission keeps a reference to the caller's list, and later changes to the list show
  through it. `Mission` is a value here, taken once construction has finished.
