/** A drone mission and its construction (src/models/mission.py, class Mission).

    `CreateMission` is the value a construction produces; `NewMission` is the construction
    itself, working on the caller's waypoint list, which it reorders in place before the
    last check can still refuse the mission. */
module Missions {
  import opened Waypoints
  import opened WaypointSort

  datatype Mission = Mission(waypoints: seq<Waypoint>, startTime: real, endTime: real, droneId: string)

  /** Every timestamped waypoint lies in the closed window [start, end]. */
  predicate WithinWindow(ws: seq<Waypoint>, start: real, end: real) {
    forall w :: w in ws && Timed(w) ==> start <= Key(w) <= end
  }

  /** The waypoint order after construction: sorted by timestamp when every waypoint has one. */
  function Canonical(ws: seq<Waypoint>): seq<Waypoint> {
    if AllTimestamped(ws) then StableSortByKey(ws) else ws
  }

  /** The caller's list once construction has returned or failed: the sort runs only after the
      emptiness and window-order checks have passed, and before the timestamp check. */
  function ListAfterConstruction(ws: seq<Waypoint>, start: real, end: real): seq<Waypoint> {
    if ws != [] && start < end then Canonical(ws) else ws
  }

  /** The outcome of constructing a mission from `ws`, checks in the source's order. */
  function CreateMission(ws: seq<Waypoint>, start: real, end: real, id: string): Result<Mission> {
    if ws == [] then Err(NoWaypoints)
    else if end <= start then Err(EndNotAfterStart)
    else if !WithinWindow(Canonical(ws), start, end) then Err(TimestampOutsideWindow)
    else Ok(Mission(Canonical(ws), start, end, id))
  }

  /** The invariants of a constructed mission. */
  predicate ValidMission(m: Mission) {
    && m.waypoints != []
    && m.startTime < m.endTime
    && WithinWindow(m.waypoints, m.startTime, m.endTime)
    && (AllTimestamped(m.waypoints) ==> SortedByKey(m.waypoints))
  }

  lemma CanonicalPermutes(ws: seq<Waypoint>)
    ensures multiset(Canonical(ws)) == multiset(ws)
    ensures AllTimestamped(ws) ==> SortedByKey(Canonical(ws)) && SameTies(Canonical(ws), ws)
    ensures !AllTimestamped(ws) ==> Canonical(ws) == ws
  {
    if AllTimestamped(ws) {
      StableSortByKeyCorrect(ws);
    }
  }

  lemma WithinWindowPermutation(ws: seq<Waypoint>, ws': seq<Waypoint>, start: real, end: real)
    requires multiset(ws) == multiset(ws')
    ensures WithinWindow(ws, start, end) <==> WithinWindow(ws', start, end)
  {
    forall w ensures w in ws <==> w in ws' {
      assert w in ws <==> w in multiset(ws);
      assert w in ws' <==> w in multiset(ws');
    }
  }

  lemma AllTimestampedPermutation(ws: seq<Waypoint>, ws': seq<Waypoint>)
    requires multiset(ws) == multiset(ws')
    ensures AllTimestamped(ws) <==> AllTimestamped(ws')
  {
    if AllTimestamped(ws) {
      forall i | 0 <= i < |ws'| ensures Timed(ws'[i]) {
        assert ws'[i] in multiset(ws);
        var j :| 0 <= j < |ws| && ws[j] == ws'[i];
      }
    }
    if AllTimestamped(ws') {
      forall i | 0 <= i < |ws| ensures Timed(ws[i]) {
        assert ws[i] in multiset(ws');
        var j :| 0 <= j < |ws'| && ws'[j] == ws[i];
      }
    }
  }

  /** Construction succeeds exactly when the list is non-empty, the window is increasing and
      every timestamped waypoint of the input lies in it; the first failing check names the
      error. Since the sort only permutes, the result of the window check is independent of it. */
  lemma CreateMissionOutcome(ws: seq<Waypoint>, start: real, end: real, id: string)
    ensures CreateMission(ws, start, end, id).Ok?
        <==> ws != [] && start < end && WithinWindow(ws, start, end)
    ensures ws == [] ==> CreateMission(ws, start, end, id) == Err(NoWaypoints)
    ensures ws != [] && end <= start ==> CreateMission(ws, start, end, id) == Err(EndNotAfterStart)
    ensures ws != [] && start < end && !WithinWindow(ws, start, end)
        ==> CreateMission(ws, start, end, id) == Err(TimestampOutsideWindow)
  {
    CanonicalPermutes(ws);
    WithinWindowPermutation(Canonical(ws), ws, start, end);
  }

  /** A constructed mission satisfies the mission invariants, holds a permutation of the input
      that is sorted and stable when every waypoint is timestamped, and the input order
      otherwise. */
  lemma CreateMissionValid(ws: seq<Waypoint>, start: real, end: real, id: string)
    requires CreateMission(ws, start, end, id).Ok?
    ensures ValidMission(CreateMission(ws, start, end, id).value)
    ensures var m := CreateMission(ws, start, end, id).value;
      && m.startTime == start && m.endTime == end && m.droneId == id
      && multiset(m.waypoints) == multiset(ws)
      && (AllTimestamped(ws) ==> SortedByKey(m.waypoints) && SameTies(m.waypoints, ws))
      && (!AllTimestamped(ws) ==> m.waypoints == ws)
  {
    CanonicalPermutes(ws);
    AllTimestampedPermutation(Canonical(ws), ws);
  }

  /** Mission construction on the caller's list, which it may reorder in place. */
  method NewMission(waypoints: array<Waypoint>, startTime: real, endTime: real, droneId: string)
    returns (r: Result<Mission>)
    modifies waypoints
    ensures r == CreateMission(old(waypoints[..]), startTime, endTime, droneId)
    ensures waypoints[..] == ListAfterConstruction(old(waypoints[..]), startTime, endTime)
  {
    if waypoints.Length == 0 {
      return Err(NoWaypoints);
    }
    if endTime <= startTime {
      return Err(EndNotAfterStart);
    }
    if AllTimestamped(waypoints[..]) {
      SortWaypoints(waypoints);
    }
    var ws := waypoints[..];
    if !WithinWindow(ws, startTime, endTime) {
      return Err(TimestampOutsideWindow);
    }
    return Ok(Mission(ws, startTime, endTime, droneId));
  }

  /** A failed timestamp check still leaves the caller's list reordered: here the list
      [t = 5, t = 3] is rejected for the window [0, 4] and is [t = 3, t = 5] afterwards. */
  lemma RejectedListIsReordered()
    ensures var late, early := Waypoint(1.0, 1.0, None, Some(5.0)), Waypoint(2.0, 2.0, None, Some(3.0));
      && CreateMission([late, early], 0.0, 4.0, "d") == Err(TimestampOutsideWindow)
      && ListAfterConstruction([late, early], 0.0, 4.0) == [early, late]
  {
    var late, early := Waypoint(1.0, 1.0, None, Some(5.0)), Waypoint(2.0, 2.0, None, Some(3.0));
    assert AllTimestamped([late, early]);
    assert [late, early][..1] == [late];
    assert [late][..0] == [];
    assert StableSortByKey([late]) == Insert([], late) == [late];
    assert Insert([late], early) == Insert([], early) + [late] == [early, late];
    assert StableSortByKey([late, early]) == [early, late];
    assert late in Canonical([late, early]);
  }
}
