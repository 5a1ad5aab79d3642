/**
 `check_collision`: does a ball touch the open arc of a ring?

 The test has two stages. A radial band filter compares the distance from
 the ring centre to the ball with two bounds. An angular test then places
 the heading of the ball (degrees, in [0, 360)) on the arc from the
 ring's normalised start angle to its normalised end angle, going round
 through 360 when the start is not below the end.

 `atan2f(y, x) * 180 / PI` is a parameter `atan2Deg`, since its value is
 not modelled; `fmodf` is written out over the reals.
 */
module Collision {
  import opened Vector2
  import opened Entities

  /** Truncation toward zero, the rounding C's `fmodf` uses. */
  function Trunc(q: real): (t: int)
    ensures 0.0 <= q ==> t as real <= q < t as real + 1.0
    ensures q < 0.0 ==> t as real - 1.0 < q <= t as real
  {
    if q >= 0.0 then q.Floor else -((-q).Floor)
  }

  /** `fmodf(x, 360.0f)`: the remainder with the sign of `x`. */
  function FMod360(x: real): (m: real)
    ensures 0.0 <= x ==> 0.0 <= m < 360.0
    ensures x < 0.0 ==> -360.0 < m <= 0.0
    ensures (x - m) / 360.0 == ((x - m) / 360.0).Floor as real
  {
    var k := Trunc(x / 360.0);
    x - 360.0 * k as real
  }

  /** The normalisation `check_collision` applies to `start` and `end`. */
  function WrapDegrees(x: real): (w: real)
    ensures 0.0 <= w < 360.0
  {
    var m := FMod360(x);
    if m < 0.0 then m + 360.0 else m
  }

  /** The normalised angle is the floor-based remainder of `x` by 360. */
  lemma {:induction false} WrapIsFloorMod(x: real)
    ensures WrapDegrees(x) == x - 360.0 * (x / 360.0).Floor as real
  {
    var q := x / 360.0;
    assert x == 360.0 * q;
    var k := Trunc(q);
    var f := q.Floor;
    if q >= 0.0 {
      assert k == f;
    } else if k as real == q {
      assert f == k;
    } else {
      assert f == k - 1;
    }
  }

  /** Two angles a whole number of turns apart normalise to the same value. */
  lemma {:induction false} WrapPeriodic(x: real, turns: int)
    ensures WrapDegrees(x + 360.0 * turns as real) == WrapDegrees(x)
  {
    WrapIsFloorMod(x);
    WrapIsFloorMod(x + 360.0 * turns as real);
    assert (x + 360.0 * turns as real) / 360.0 == x / 360.0 + turns as real;
    assert (x / 360.0 + turns as real).Floor == (x / 360.0).Floor + turns;
  }

  /** An angle already in [0, 360) is left as it is. */
  lemma {:induction false} WrapIdentity(x: real)
    requires 0.0 <= x < 360.0
    ensures WrapDegrees(x) == x
  {
    WrapIsFloorMod(x);
    assert (x / 360.0).Floor == 0;
  }

  /** The heading of the ball: the `atan2f` angle, moved into [0, 360) when negative. */
  function Heading(raw: real): (a: real)
    ensures -360.0 <= raw < 360.0 ==> 0.0 <= a < 360.0
    ensures a == raw || a == raw + 360.0
  {
    if raw < 0.0 then raw + 360.0 else raw
  }

  /**
   The radial filter, with the bounds as `check_collision` writes them:
   the test fails when the distance is below
   `innerR - radius + (outerR - innerR)` or above
   `outerR + radius - (outerR - innerR)`.
   */
  predicate InBand(ball: Ball, ring: Ring) {
    var toBall := Sub(ball.pos, ring.center);
    var width := ring.outerR - ring.innerR;
    !(LengthBelow(toBall, ring.innerR - ball.radius + width)
      || LengthAbove(toBall, ring.outerR + ball.radius - width))
  }

  /** The angular test of `check_collision` on normalised angles. */
  predicate InArc(angle: real, start: real, end: real) {
    if start < end then start <= angle && angle <= end else angle >= start || angle <= end
  }

  /** The heading of `ball` seen from the centre of `ring`. */
  function BallHeading(ball: Ball, ring: Ring, atan2Deg: (real, real) -> real): real {
    var toBall := Sub(ball.pos, ring.center);
    Heading(atan2Deg(toBall.y, toBall.x))
  }

  predicate CheckCollision(ball: Ball, ring: Ring, atan2Deg: (real, real) -> real) {
    InBand(ball, ring)
    && InArc(BallHeading(ball, ring, atan2Deg), WrapDegrees(ring.start), WrapDegrees(ring.end))
  }

  /**
   The width terms cancel: for the true distance `dist` from the ring
   centre, the band filter passes exactly when
   `outerR - radius <= dist <= innerR + radius`.
   */
  lemma {:induction false} BandExact(ball: Ball, ring: Ring, dist: real)
    requires IsLength(Sub(ball.pos, ring.center), dist)
    ensures InBand(ball, ring) <==> ring.outerR - ball.radius <= dist <= ring.innerR + ball.radius
  {
    var toBall := Sub(ball.pos, ring.center);
    var width := ring.outerR - ring.innerR;
    LengthBelowExact(toBall, ring.innerR - ball.radius + width, dist);
    LengthAboveExact(toBall, ring.outerR + ball.radius - width, dist);
  }

  /** A ball at the ring centre, smaller than the smaller radius, fails the band filter. */
  lemma {:induction false} CentreOutOfBand(ball: Ball, ring: Ring)
    requires ball.pos == ring.center && ball.radius < ring.outerR
    ensures !InBand(ball, ring)
  {
    var toBall := Sub(ball.pos, ring.center);
    var lo := ring.innerR - ball.radius + (ring.outerR - ring.innerR);
    ZeroBelow(toBall, lo);
  }

  /** Such a ball is never hit, whatever its heading. */
  lemma {:induction false} CentreMisses(ball: Ball, ring: Ring, atan2Deg: (real, real) -> real)
    requires ball.pos == ring.center && ball.radius < ring.outerR
    ensures !CheckCollision(ball, ring, atan2Deg)
  {
    CentreOutOfBand(ball, ring);
  }

  /** In the starting layout the ball sits at the centre and touches no ring. */
  lemma {:induction false} InitialBallTouchesNothing(i: nat, atan2Deg: (real, real) -> real)
    ensures !CheckCollision(InitialBall(), RingAt(i), atan2Deg)
  {
    CentreMisses(InitialBall(), RingAt(i), atan2Deg);
  }

  /** Turning either end of the arc by whole turns does not change the outcome. */
  lemma {:induction false} WholeTurnsInvariant(ball: Ball, ring: Ring, atan2Deg: (real, real) -> real,
                                               ts: int, te: int)
    ensures CheckCollision(ball, ring.(start := ring.start + 360.0 * ts as real), atan2Deg)
        == CheckCollision(ball, ring, atan2Deg)
    ensures CheckCollision(ball, ring.(end := ring.end + 360.0 * te as real), atan2Deg)
        == CheckCollision(ball, ring, atan2Deg)
  {
    WrapPeriodic(ring.start, ts);
    WrapPeriodic(ring.end, te);
  }

  /**
   A ring whose normalised ends coincide is treated as a full circle: it
   hits every ball that passes the band filter, whatever its heading.
   */
  lemma {:induction false} FullLap(ball: Ball, ring: Ring, atan2Deg: (real, real) -> real)
    requires WrapDegrees(ring.start) == WrapDegrees(ring.end)
    ensures CheckCollision(ball, ring, atan2Deg) <==> InBand(ball, ring)
  {
  }

  /**
   The angle swept counter-clockwise from `from` to `to`, in [0, 360):
   an independent description of an arc.
   */
  function Sweep(from: real, to: real): (s: real)
    ensures 0.0 <= s < 360.0
  {
    WrapDegrees(to - from)
  }

  /**
   For normalised angles with distinct ends, the arc test holds exactly
   when the heading is reached from `start` no later than `end` is.
   */
  lemma {:induction false} InArcIsSweep(angle: real, start: real, end: real)
    requires 0.0 <= angle < 360.0 && 0.0 <= start < 360.0 && 0.0 <= end < 360.0
    requires start != end
    ensures InArc(angle, start, end) <==> Sweep(start, angle) <= Sweep(start, end)
  {
    SweepValue(start, angle);
    SweepValue(start, end);
  }

  lemma {:induction false} SweepValue(from: real, to: real)
    requires 0.0 <= from < 360.0 && 0.0 <= to < 360.0
    ensures from <= to ==> Sweep(from, to) == to - from
    ensures to < from ==> Sweep(from, to) == to - from + 360.0
  {
    if from <= to {
      WrapIdentity(to - from);
    } else {
      WrapPeriodic(to - from, 1);
      WrapIdentity(to - from + 360.0);
    }
  }

  /**
   The whole test restated: a ball is hit exactly when it passes the band
   filter and either the normalised ends coincide or its heading lies on
   the counter-clockwise sweep from `start` to `end`. This needs the raw
   `atan2f` angle in [-360, 360), as it is for `atan2f` in degrees.
   */
  lemma {:induction false} HitBySweep(ball: Ball, ring: Ring, atan2Deg: (real, real) -> real)
    requires var toBall := Sub(ball.pos, ring.center);
      -360.0 <= atan2Deg(toBall.y, toBall.x) < 360.0
    ensures var s := WrapDegrees(ring.start);
      var e := WrapDegrees(ring.end);
      var a := BallHeading(ball, ring, atan2Deg);
      CheckCollision(ball, ring, atan2Deg) <==> InBand(ball, ring) && (s == e || Sweep(s, a) <= Sweep(s, e))
  {
    var s := WrapDegrees(ring.start);
    var e := WrapDegrees(ring.end);
    if s != e {
      InArcIsSweep(BallHeading(ball, ring, atan2Deg), s, e);
    }
  }
}
