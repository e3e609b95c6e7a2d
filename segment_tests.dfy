/** The per-segment-pair tests of the detector (src/conflict/conflict_detector.py:106-156):
    time-window overlap, 2D parametric segment intersection, the conflict instant and the
    separation used for the safety-buffer test.

    Arithmetic is on exact reals. The source's square roots are avoided: a distance is kept
    squared (`WithinBuffer` compares it with the squared buffer, and `BufferTestIsDistanceTest`
    shows this is the source's `distance < safety_buffer`), and the distance ratio along the
    primary segment is the intersection parameter `t` (`TimeRatioIsDistanceRatio`). */
module SegmentTests {
  import opened Waypoints

  datatype Point = Point(x: real, y: real)

  /** A crossing of two segments: the point and its parameters along each segment. */
  datatype Crossing = Crossing(point: Point, t: real, u: real)

  function Position(w: Waypoint): Point {
    Point(w.x, w.y)
  }

  /** The point at parameter `t` on the segment from `p` to `q`: p + t * (q - p). */
  function Lerp(p: Point, q: Point, t: real): Point {
    Point(p.x + t * (q.x - p.x), p.y + t * (q.y - p.y))
  }

  /** `v ** 2` of the source. */
  function Square(v: real): real {
    v * v
  }

  /** The square of the Euclidean distance between `p` and `q`. */
  function DistanceSquared(p: Point, q: Point): real {
    Square(p.x - q.x) + Square(p.y - q.y)
  }

  function Ts(w: Waypoint): real
    requires Timed(w)
  {
    w.timestamp.value
  }

  // ---------------------------------------------------------------------------------------
  // Temporal overlap (conflict_detector.py:106-111)

  /** The closed intervals [a0, a1] and [b0, b1] of the two segments' timestamps overlap. */
  predicate TemporalOverlap(a0: Waypoint, a1: Waypoint, b0: Waypoint, b1: Waypoint)
    requires Timed(a0) && Timed(a1) && Timed(b0) && Timed(b1)
  {
    !(Ts(a1) < Ts(b0) || Ts(b1) < Ts(a0))
  }

  /** Some instant belongs to both time intervals. */
  ghost predicate SharedInstant(a0: Waypoint, a1: Waypoint, b0: Waypoint, b1: Waypoint, tau: real)
    requires Timed(a0) && Timed(a1) && Timed(b0) && Timed(b1)
  {
    Ts(a0) <= tau <= Ts(a1) && Ts(b0) <= tau <= Ts(b1)
  }

  /** The overlap test is symmetric, and for ordered intervals it holds exactly when the two
      intervals share an instant (endpoints included). */
  lemma TemporalOverlapMeaning(a0: Waypoint, a1: Waypoint, b0: Waypoint, b1: Waypoint)
    requires Timed(a0) && Timed(a1) && Timed(b0) && Timed(b1)
    ensures TemporalOverlap(a0, a1, b0, b1) == TemporalOverlap(b0, b1, a0, a1)
    ensures Ts(a0) <= Ts(a1) && Ts(b0) <= Ts(b1) ==>
      (TemporalOverlap(a0, a1, b0, b1) <==> exists tau :: SharedInstant(a0, a1, b0, b1, tau))
  {
    if Ts(a0) <= Ts(a1) && Ts(b0) <= Ts(b1) && TemporalOverlap(a0, a1, b0, b1) {
      var tau := if Ts(a0) <= Ts(b0) then Ts(b0) else Ts(a0);
      assert SharedInstant(a0, a1, b0, b1, tau);
    }
  }

  // ---------------------------------------------------------------------------------------
  // Segment intersection (conflict_detector.py:113-137)

  /** The `denominator` of the source: zero exactly for parallel (or collinear) directions. */
  function Denominator(p1: Point, p2: Point, p3: Point, p4: Point): real {
    (p1.x - p2.x) * (p3.y - p4.y) - (p1.y - p2.y) * (p3.x - p4.x)
  }

  /** The numerators of the source's `t` and `u`. */
  function NumeratorT(p1: Point, p2: Point, p3: Point, p4: Point): real {
    (p1.x - p3.x) * (p3.y - p4.y) - (p1.y - p3.y) * (p3.x - p4.x)
  }

  function NumeratorU(p1: Point, p2: Point, p3: Point, p4: Point): real {
    -((p1.x - p2.x) * (p1.y - p3.y) - (p1.y - p2.y) * (p1.x - p3.x))
  }

  /** The crossing of segment a0 -> a1 with segment b0 -> b1, if the two segments are not
      parallel and meet at parameters t, u in [0, 1] (endpoints included). */
  function FindIntersection(a0: Waypoint, a1: Waypoint, b0: Waypoint, b1: Waypoint): (r: Option<Crossing>)
    ensures Denominator(Position(a0), Position(a1), Position(b0), Position(b1)) == 0.0 ==> r.None?
    ensures r.Some? ==> 0.0 <= r.value.t <= 1.0 && 0.0 <= r.value.u <= 1.0
    ensures r.Some? ==> r.value.point == Lerp(Position(a0), Position(a1), r.value.t)
  {
    var p1, p2, p3, p4 := Position(a0), Position(a1), Position(b0), Position(b1);
    var d := Denominator(p1, p2, p3, p4);
    if d == 0.0 then None
    else
      var t := NumeratorT(p1, p2, p3, p4) / d;
      var u := NumeratorU(p1, p2, p3, p4) / d;
      if 0.0 <= t <= 1.0 && 0.0 <= u <= 1.0 then Some(Crossing(Lerp(p1, p2, t), t, u))
      else None
  }

  /** The two segments meet at parameter t on the first and u on the second. */
  ghost predicate MeetAt(p1: Point, p2: Point, p3: Point, p4: Point, t: real, u: real) {
    0.0 <= t <= 1.0 && 0.0 <= u <= 1.0 && Lerp(p1, p2, t) == Lerp(p3, p4, u)
  }

  /** Cramer's rule for the 2 x 2 system `w + t * d1 - u * d2 == 0` written with the
      source's numerators, in the variables of the direction vectors d1 = p2 - p1,
      d2 = p4 - p3 and the offset w = p1 - p3. */
  lemma CramerSolves(wx: real, wy: real, dx1: real, dy1: real, dx2: real, dy2: real, t: real, u: real)
    requires dx1 * dy2 - dy1 * dx2 != 0.0
    requires t * (dx1 * dy2 - dy1 * dx2) == wy * dx2 - wx * dy2
    requires u * (dx1 * dy2 - dy1 * dx2) == dx1 * wy - dy1 * wx
    ensures wx + t * dx1 == u * dx2
    ensures wy + t * dy1 == u * dy2
  {
    var d := dx1 * dy2 - dy1 * dx2;
    assert d * wx + (wy * dx2 - wx * dy2) * dx1 - (dx1 * wy - dy1 * wx) * dx2 == 0.0;
    assert d * (wx + t * dx1 - u * dx2) == 0.0;
    assert d * wy + (wy * dx2 - wx * dy2) * dy1 - (dx1 * wy - dy1 * wx) * dy2 == 0.0;
    assert d * (wy + t * dy1 - u * dy2) == 0.0;
  }

  /** Conversely, every solution of the system is the one Cramer's rule gives. */
  lemma CramerUnique(wx: real, wy: real, dx1: real, dy1: real, dx2: real, dy2: real, t: real, u: real)
    requires wx + t * dx1 == u * dx2
    requires wy + t * dy1 == u * dy2
    ensures t * (dx1 * dy2 - dy1 * dx2) == wy * dx2 - wx * dy2
    ensures u * (dx1 * dy2 - dy1 * dx2) == dx1 * wy - dy1 * wx
  {
    assert (wx + t * dx1) * dy2 - (wy + t * dy1) * dx2 == u * dx2 * dy2 - u * dy2 * dx2;
    assert (wx + t * dx1) * dy1 - (wy + t * dy1) * dx1 == u * dx2 * dy1 - u * dy2 * dx1;
  }

  /** The source's denominator and numerators, written with d1 = p2 - p1, d2 = p4 - p3 and
      w = p1 - p3. */
  lemma CramerForm(p1: Point, p2: Point, p3: Point, p4: Point)
    ensures var wx, wy, dx1, dy1, dx2, dy2 :=
        p1.x - p3.x, p1.y - p3.y, p2.x - p1.x, p2.y - p1.y, p4.x - p3.x, p4.y - p3.y;
      && Denominator(p1, p2, p3, p4) == dx1 * dy2 - dy1 * dx2
      && NumeratorT(p1, p2, p3, p4) == wy * dx2 - wx * dy2
      && NumeratorU(p1, p2, p3, p4) == dx1 * wy - dy1 * wx
  {
  }

  lemma QuotientTimesDivisor(n: real, d: real)
    requires d != 0.0
    ensures (n / d) * d == n
  {
  }

  /** A reported crossing also lies on the second segment, at parameter `u`. */
  lemma CrossingOnSecondSegment(a0: Waypoint, a1: Waypoint, b0: Waypoint, b1: Waypoint)
    requires FindIntersection(a0, a1, b0, b1).Some?
    ensures var c := FindIntersection(a0, a1, b0, b1).value;
      MeetAt(Position(a0), Position(a1), Position(b0), Position(b1), c.t, c.u)
      && c.point == Lerp(Position(b0), Position(b1), c.u)
  {
    var p1, p2, p3, p4 := Position(a0), Position(a1), Position(b0), Position(b1);
    var d := Denominator(p1, p2, p3, p4);
    var c := FindIntersection(a0, a1, b0, b1).value;
    CramerForm(p1, p2, p3, p4);
    QuotientTimesDivisor(NumeratorT(p1, p2, p3, p4), d);
    QuotientTimesDivisor(NumeratorU(p1, p2, p3, p4), d);
    CramerSolves(p1.x - p3.x, p1.y - p3.y, p2.x - p1.x, p2.y - p1.y, p4.x - p3.x, p4.y - p3.y, c.t, c.u);
  }

  /** Two non-parallel segments meeting at parameters t, u in [0, 1] are reported, with
      exactly those parameters. */
  lemma CrossingFound(a0: Waypoint, a1: Waypoint, b0: Waypoint, b1: Waypoint, t: real, u: real)
    requires Denominator(Position(a0), Position(a1), Position(b0), Position(b1)) != 0.0
    requires MeetAt(Position(a0), Position(a1), Position(b0), Position(b1), t, u)
    ensures FindIntersection(a0, a1, b0, b1)
         == Some(Crossing(Lerp(Position(a0), Position(a1), t), t, u))
  {
    var p1, p2, p3, p4 := Position(a0), Position(a1), Position(b0), Position(b1);
    var d := Denominator(p1, p2, p3, p4);
    var nt, nu := NumeratorT(p1, p2, p3, p4), NumeratorU(p1, p2, p3, p4);
    CramerForm(p1, p2, p3, p4);
    assert Lerp(p1, p2, t).x == Lerp(p3, p4, u).x && Lerp(p1, p2, t).y == Lerp(p3, p4, u).y;
    CramerUnique(p1.x - p3.x, p1.y - p3.y, p2.x - p1.x, p2.y - p1.y, p4.x - p3.x, p4.y - p3.y, t, u);
    QuotientTimesDivisor(nt, d);
    QuotientTimesDivisor(nu, d);
    CancelNonzero(nt / d, t, d);
    CancelNonzero(nu / d, u, d);
  }

  lemma CancelNonzero(x: real, y: real, d: real)
    requires d != 0.0 && x * d == y * d
    ensures x == y
  {
    assert (x - y) * d == x * d - y * d;
  }

  /** The intersection is exact: it is reported precisely when the segments are not parallel
      and meet at some parameters in [0, 1]. */
  lemma FindIntersectionExact(a0: Waypoint, a1: Waypoint, b0: Waypoint, b1: Waypoint)
    ensures var p1, p2, p3, p4 := Position(a0), Position(a1), Position(b0), Position(b1);
      (FindIntersection(a0, a1, b0, b1).Some?
       <==> Denominator(p1, p2, p3, p4) != 0.0 && exists t, u :: MeetAt(p1, p2, p3, p4, t, u))
  {
    var p1, p2, p3, p4 := Position(a0), Position(a1), Position(b0), Position(b1);
    if FindIntersection(a0, a1, b0, b1).Some? {
      CrossingOnSecondSegment(a0, a1, b0, b1);
      var c := FindIntersection(a0, a1, b0, b1).value;
      assert MeetAt(p1, p2, p3, p4, c.t, c.u);
    } else if Denominator(p1, p2, p3, p4) != 0.0 && exists t, u :: MeetAt(p1, p2, p3, p4, t, u) {
      var t, u :| MeetAt(p1, p2, p3, p4, t, u);
      CrossingFound(a0, a1, b0, b1, t, u);
    }
  }

  /** A segment of zero length (a drone hovering between two waypoints) makes the denominator
      zero, so it never crosses anything. */
  lemma ZeroLengthNeverIntersects(a0: Waypoint, a1: Waypoint, b0: Waypoint, b1: Waypoint)
    requires Position(a0) == Position(a1) || Position(b0) == Position(b1)
    ensures FindIntersection(a0, a1, b0, b1).None?
  {
  }

  // ---------------------------------------------------------------------------------------
  // Conflict time (conflict_detector.py:139-152)

  /** The conflict instant: the primary segment's start time advanced by the fraction of the
      segment travelled, which is `c.t`, or 0 on a segment of zero length. */
  function ConflictTime(a0: Waypoint, a1: Waypoint, c: Crossing): (r: real)
    requires Timed(a0) && Timed(a1)
    ensures DistanceSquared(Position(a1), Position(a0)) == 0.0 ==> r == Ts(a0)
    ensures 0.0 <= c.t <= 1.0 && Ts(a0) <= Ts(a1) ==> Ts(a0) <= r <= Ts(a1)
    ensures 0.0 <= c.t <= 1.0 && Ts(a1) <= Ts(a0) ==> Ts(a1) <= r <= Ts(a0)
  {
    var ratio := if DistanceSquared(Position(a1), Position(a0)) > 0.0 then c.t else 0.0;
    Interpolate(Ts(a0), Ts(a1), ratio)
  }

  /** `s + ratio * (e - s)`: the instant a fraction `ratio` of the way from `s` to `e`, which
      lies between the two for a ratio in [0, 1], whichever of them is earlier. */
  function Interpolate(s: real, e: real, ratio: real): (r: real)
    ensures ratio == 0.0 ==> r == s
    ensures ratio == 1.0 ==> r == e
    ensures 0.0 <= ratio <= 1.0 && s <= e ==> s <= r <= e
    ensures 0.0 <= ratio <= 1.0 && e <= s ==> e <= r <= s
  {
    var r := s + ratio * (e - s);
    InterpolateBetween(s, e, ratio, r);
    r
  }

  lemma InterpolateBetween(s: real, e: real, ratio: real, r: real)
    requires r == s + ratio * (e - s)
    ensures 0.0 <= ratio <= 1.0 && s <= e ==> s <= r <= e
    ensures 0.0 <= ratio <= 1.0 && e <= s ==> e <= r <= s
  {
    if !(0.0 <= ratio <= 1.0) {
    } else if s <= e {
      MulNonnegative(ratio, e - s);
      MulNonnegative(1.0 - ratio, e - s);
    } else {
      MulNonnegative(ratio, s - e);
      MulNonnegative(1.0 - ratio, s - e);
    }
  }

  lemma MulNonnegative(x: real, y: real)
    requires 0.0 <= x && 0.0 <= y
    ensures 0.0 <= x * y
  {
  }

  /** `ratio` is |q - p1| / |p2 - p1|, the quotient of the two square roots of the source,
      stated without them: the non-negative number whose square scales the squared segment
      length to the squared distance travelled. */
  ghost predicate IsDistanceRatio(ratio: real, p1: Point, p2: Point, q: Point) {
    0.0 <= ratio && Square(ratio) * DistanceSquared(p2, p1) == DistanceSquared(q, p1)
  }

  /** For every reported crossing the primary segment has positive length and `c.t` is the
      distance ratio of the source, and the only one: the source's time ratio equals `t`. */
  lemma TimeRatioIsDistanceRatio(a0: Waypoint, a1: Waypoint, b0: Waypoint, b1: Waypoint)
    requires FindIntersection(a0, a1, b0, b1).Some?
    ensures var c := FindIntersection(a0, a1, b0, b1).value;
      && DistanceSquared(Position(a1), Position(a0)) > 0.0
      && IsDistanceRatio(c.t, Position(a0), Position(a1), c.point)
      && forall r :: IsDistanceRatio(r, Position(a0), Position(a1), c.point) ==> r == c.t
  {
    var c := FindIntersection(a0, a1, b0, b1).value;
    CrossingHasLength(a0, a1, b0, b1);
    OnlyDistanceRatio(Position(a0), Position(a1), c.t);
  }

  /** At a reported crossing the conflict instant is the source's formula: the start time
      advanced by the duration scaled by the distance ratio of the crossing point. */
  lemma ConflictTimeAtCrossing(a0: Waypoint, a1: Waypoint, b0: Waypoint, b1: Waypoint, c: Crossing, ratio: real)
    requires Timed(a0) && Timed(a1)
    requires FindIntersection(a0, a1, b0, b1) == Some(c)
    requires IsDistanceRatio(ratio, Position(a0), Position(a1), c.point)
    ensures ConflictTime(a0, a1, c) == Interpolate(Ts(a0), Ts(a1), ratio)
  {
    assert ratio == c.t && DistanceSquared(Position(a1), Position(a0)) > 0.0 by {
      TimeRatioIsDistanceRatio(a0, a1, b0, b1);
    }
  }

  /** On a segment of positive length, the point at parameter t >= 0 has distance ratio t,
      and no other. */
  lemma OnlyDistanceRatio(p1: Point, p2: Point, t: real)
    requires DistanceSquared(p2, p1) > 0.0 && 0.0 <= t
    ensures IsDistanceRatio(t, p1, p2, Lerp(p1, p2, t))
    ensures forall r :: IsDistanceRatio(r, p1, p2, Lerp(p1, p2, t)) ==> r == t
  {
    ScaledDistance(p1, p2, t);
    forall r | IsDistanceRatio(r, p1, p2, Lerp(p1, p2, t)) ensures r == t {
      SquareRootUnique(r, t, DistanceSquared(p2, p1));
    }
  }

  /** Only a primary segment of positive length can cross anything. */
  lemma CrossingHasLength(a0: Waypoint, a1: Waypoint, b0: Waypoint, b1: Waypoint)
    requires FindIntersection(a0, a1, b0, b1).Some?
    ensures DistanceSquared(Position(a1), Position(a0)) > 0.0
  {
    NonparallelHasLength(Position(a0), Position(a1), Position(b0), Position(b1));
  }

  lemma NonparallelHasLength(p1: Point, p2: Point, p3: Point, p4: Point)
    requires Denominator(p1, p2, p3, p4) != 0.0
    ensures DistanceSquared(p2, p1) > 0.0
  {
    CramerForm(p1, p2, p3, p4);
    NonzeroDeterminant(p2.x - p1.x, p2.y - p1.y, p4.x - p3.x, p4.y - p3.y);
    SumOfSquaresPositive(p2.x - p1.x, p2.y - p1.y);
  }

  lemma NonzeroDeterminant(dx1: real, dy1: real, dx2: real, dy2: real)
    requires dx1 * dy2 - dy1 * dx2 != 0.0
    ensures dx1 != 0.0 || dy1 != 0.0
  {
  }

  /** The point at parameter t is t times as far from the start as the segment is long
      (squared). */
  lemma ScaledDistance(p: Point, q: Point, t: real)
    ensures DistanceSquared(Lerp(p, q, t), p) == Square(t) * DistanceSquared(q, p)
  {
    var dx, dy := q.x - p.x, q.y - p.y;
    assert Lerp(p, q, t).x - p.x == t * dx;
    assert Lerp(p, q, t).y - p.y == t * dy;
    assert (t * dx) * (t * dx) + (t * dy) * (t * dy) == t * t * (dx * dx + dy * dy);
  }

  /** A non-negative number is determined by its square (scaled by a positive factor). */
  lemma SquareRootUnique(r: real, t: real, k: real)
    requires 0.0 <= r && 0.0 <= t && 0.0 < k
    requires Square(r) * k == Square(t) * k
    ensures r == t
  {
    CancelNonzero(Square(r), Square(t), k);
    if r < t {
      SquareStrict(r, t);
    } else if t < r {
      SquareStrict(t, r);
    }
  }

  lemma SumOfSquaresPositive(dx: real, dy: real)
    requires dx != 0.0 || dy != 0.0
    ensures 0.0 < Square(dx) + Square(dy)
  {
    SquareNonnegative(dx);
    SquareNonnegative(dy);
    if dx != 0.0 {
      SquarePositive(dx);
    } else {
      SquarePositive(dy);
    }
  }

  lemma SquareNonnegative(x: real)
    ensures 0.0 <= Square(x)
  {
    if x != 0.0 {
      SquarePositive(x);
    }
  }

  lemma SquarePositive(x: real)
    requires x != 0.0
    ensures 0.0 < Square(x)
  {
    if 0.0 < x {
      ProductPositive(x, x, Square(x));
    } else {
      ProductPositive(-x, -x, Square(x));
    }
  }

  lemma SquareStrict(a: real, b: real)
    requires 0.0 <= a < b
    ensures Square(a) < Square(b)
  {
    ProductPositive(b - a, b + a, Square(b) - Square(a));
  }

  lemma SquareMonotone(a: real, b: real)
    requires 0.0 <= a <= b
    ensures Square(a) <= Square(b)
  {
    if a < b {
      SquareStrict(a, b);
    }
  }

  /** The sign rule for a product, with the product named `s`. */
  lemma ProductPositive(x: real, y: real, s: real)
    requires 0.0 < x && 0.0 < y && s == x * y
    ensures 0.0 < s
  {
  }

  // ---------------------------------------------------------------------------------------
  // Distance and the safety buffer (conflict_detector.py:87-91, 154-156)

  /** The squared separation the source measures: that of the two segments' start
      waypoints, in the plane. The crossing point plays no part. */
  function StartSeparationSquared(a0: Waypoint, b0: Waypoint): (d2: real)
    ensures 0.0 <= d2
    ensures d2 == 0.0 <==> Position(a0) == Position(b0)
  {
    DistanceSquaredZero(Position(a0), Position(b0));
    DistanceSquared(Position(a0), Position(b0))
  }

  /** A squared distance is non-negative and vanishes only between equal points. */
  lemma DistanceSquaredZero(p: Point, q: Point)
    ensures 0.0 <= DistanceSquared(p, q)
    ensures DistanceSquared(p, q) == 0.0 <==> p == q
  {
    SquareNonnegative(p.x - q.x);
    SquareNonnegative(p.y - q.y);
    if p != q {
      SumOfSquaresPositive(p.x - q.x, p.y - q.y);
    }
  }

  /** `sqrt(d2) < buffer`, without the square root. */
  predicate WithinBuffer(d2: real, buffer: real) {
    0.0 < buffer && d2 < Square(buffer)
  }

  /** The squared comparison is the source's strict comparison of the distance itself,
      for every buffer, so a distance equal to the buffer is not a conflict. */
  lemma BufferTestIsDistanceTest(distance: real, buffer: real)
    requires 0.0 <= distance
    ensures WithinBuffer(Square(distance), buffer) <==> distance < buffer
  {
    if 0.0 < buffer && distance < buffer {
      SquareStrict(distance, buffer);
    } else if 0.0 < buffer {
      SquareMonotone(buffer, distance);
    }
  }
}
