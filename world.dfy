/**
 The state `main` keeps between frames: the array of balls and the array
 of rings with their counts. `add_ball` receives pointers to all four and
 replaces both arrays, so the four become the fields of one object.
 */
module Game {
  import opened Vector2
  import opened Entities
  import opened Buffers
  import opened RingList
  import opened Motion
  import opened Spawning
  import opened Impacts

  /** The balls after `decrease_cooldown`. */
  function CoolAll(s: seq<Ball>, dt: real): (r: seq<Ball>)
    ensures |r| == |s| && forall l :: 0 <= l < |s| ==> r[l] == Cooled(s[l], dt)
  {
    seq(|s|, l requires 0 <= l < |s| => Cooled(s[l], dt))
  }

  /** The loop of `main` that calls `update_ball` on every ball against the same rings. */
  method MoveBalls(balls: array<Ball>, ballsN: nat, rings: array<Ring>, ringsN: nat, dt: real,
                   atan2Deg: (real, real) -> real, shade: nat -> Shade)
    requires ballsN <= balls.Length && ringsN <= rings.Length
    modifies balls
    ensures forall l :: 0 <= l < ballsN ==> balls[l] == StepBall(old(balls[l]), rings[..ringsN], dt, atan2Deg, shade(l))
    ensures forall l :: ballsN <= l < balls.Length ==> balls[l] == old(balls[l])
  {
    for i := 0 to ballsN
      invariant forall l :: 0 <= l < i ==> balls[l] == StepBall(old(balls[l]), rings[..ringsN], dt, atan2Deg, shade(l))
      invariant forall l :: i <= l < balls.Length ==> balls[l] == old(balls[l])
    {
      UpdateBall(balls, i, rings, ringsN, dt, atan2Deg, shade(i));
    }
  }

  /** The loop of `main` that calls `spin_ring` on every ring. */
  method SpinRings(rings: array<Ring>, ringsN: nat, dt: real)
    requires ringsN <= rings.Length
    modifies rings
    ensures forall l :: 0 <= l < ringsN ==> rings[l] == Spin(old(rings[l]), dt)
    ensures forall l :: ringsN <= l < rings.Length ==> rings[l] == old(rings[l])
  {
    for i := 0 to ringsN
      invariant forall l :: 0 <= l < i ==> rings[l] == Spin(old(rings[l]), dt)
      invariant forall l :: i <= l < rings.Length ==> rings[l] == old(rings[l])
    {
      SpinRing(rings, i, dt);
    }
  }

  /**
   The first half of a spawn in `add_ball`: reallocate the balls one
   larger and write the clone of ball `j` into the new last slot.
   */
  method AppendClone(balls: array<Ball>, j: nat, off: Offset) returns (grown: array<Ball>)
    requires j < balls.Length
    ensures fresh(grown) && grown[..] == balls[..] + [Clone(balls[j], off)]
  {
    grown := Resized(balls, balls.Length + 1);
    var newBall := grown[j];
    newBall := newBall.(spawnCooldown := SpawnImmunity);
    newBall := newBall.(pos := Vec(newBall.pos.x + off.dx as real, newBall.pos.y + off.dy as real));
    grown[grown.Length - 1] := newBall;
  }

  class World {
    var balls: array<Ball>
    var ballsN: nat
    var rings: array<Ring>
    var ringsN: nat

    /** Each count is the length of its array, and the rings are ordered from the inside out. */
    predicate Valid()
      reads this, rings
    {
      balls.Length == ballsN && rings.Length == ringsN && InnerAscending(rings[..])
    }

    /** The set-up in `main`: nine rings from `generate_rings`, one ball at the centre. */
    constructor ()
      ensures Valid() && fresh(balls) && fresh(rings)
      ensures ballsN == 1 && balls[..] == [InitialBall()]
      ensures ringsN == RingCount && forall i :: 0 <= i < RingCount ==> rings[i] == RingAt(i)
    {
      ringsN := RingCount;
      ballsN := 1;
      var r := GenerateRings(RingCount);
      rings := r;
      var b := new Ball[1];
      b[0] := InitialBall();
      balls := b;
      LayoutAscending(RingCount);
      assert r[..] == seq(RingCount, i requires 0 <= i => RingAt(i));
    }

    /**
     The body of the inner loop of `add_ball` once ball `j` has escaped a
     ring: grow the ball array by one and append the clone, drop the first
     ring, then grow ball `j`.
     */
    method Spawn(j: nat, off: Offset)
      requires Valid() && j < ballsN && 1 <= ringsN
      modifies this, balls, rings
      ensures Valid() && fresh(balls) && fresh(rings)
      ensures balls[..] == SpawnAt(old(balls[..]), j, off) && rings[..] == old(rings[1..])
    {
      ghost var s := balls[..];
      ghost var r := rings[..];
      ballsN := ballsN + 1;
      balls := AppendClone(balls, j, off);
      ghost var appended := balls[..];
      rings, ringsN := RemoveRing(rings, ringsN);
      assert balls[..] == appended && rings[..] == r[1..];
      balls[j] := balls[j].(radius := balls[j].radius * GrowthFactor);
      balls[j] := balls[j].(vel := Scale(balls[j].vel, SpeedBoost));
      assert balls[..] == appended[j := Grown(appended[j])];
      assert appended[j := Grown(appended[j])] == SpawnAt(s, j, off);
      SuffixAscending(r, 1);
    }

    /**
     `add_ball`: the sweep of `AddBalls`, done in place. `jitter(k)` is the
     offset drawn for the `k`-th clone of the call.
     */
    method AddBall(jitter: nat -> Offset)
      requires Valid()
      modifies this, balls, rings
      ensures Valid()
      ensures var p := AddBalls(old(balls[..]), old(rings[..]), jitter);
        balls[..] == p.balls && rings[..] == p.rings
      ensures ballsN + ringsN == old(ballsN) + old(ringsN)
      ensures (fresh(balls) || balls == old(balls)) && (fresh(rings) || rings == old(rings))
    {
      var j := 0;
      var spawned := 0;
      while j < ballsN
        invariant Valid() && j <= ballsN
        invariant fresh(balls) || balls == old(balls)
        invariant fresh(rings) || rings == old(rings)
        invariant SweepFrom(balls[..], rings[..], j, spawned, jitter) == AddBalls(old(balls[..]), old(rings[..]), jitter)
        decreases ringsN, ballsN - j
      {
        ghost var s := balls[..];
        ghost var r := rings[..];
        ghost var hit := false;
        var i := 0;
        while i < ringsN
          invariant i <= ringsN
          invariant forall l :: 0 <= l < i ==> !Escaped(s[j], r[l])
        {
          if Escaped(balls[j], rings[i]) {
            Spawn(j, jitter(spawned));
            hit := true;
            assert Triggers(s[j], r);
            spawned := spawned + 1;
            break;
          }
          i := i + 1;
        }
        if !hit {
          assert !Triggers(s[j], r);
        }
        j := j + 1;
      }
      SweepConserves(old(balls[..]), old(rings[..]), 0, 0, jitter);
    }
 
    /** The first two calls of a frame: `decrease_cooldown`, then `handle_ball_collisions`. */
    method CoolAndCollide(dt: real, touching: Touch)
      requires Valid() && Resolvable(CoolAll(balls[..], dt), touching)
      modifies balls
      ensures balls[..] == CollideAll(CoolAll(old(balls[..]), dt), touching)
    {
      DecreaseCooldown(balls, ballsN, dt);
      ghost var cooled := balls[..];
      assert cooled == CoolAll(old(balls[..]), dt);
      assert balls[..ballsN] == cooled;
      HandleBallCollisions(balls, ballsN, touching);
      assert balls[..] == balls[..ballsN];
    }

    /**
     One frame of `main`'s loop, without the drawing: count the spawn
     timers down, exchange velocities between touching balls, spawn, move
     every ball against the rings, then spin every ring. `shade(i)` is the
     colour drawn if ball `i` bounces.
     */
    method Frame(dt: real, touching: Touch, jitter: nat -> Offset, atan2Deg: (real, real) -> real, shade: nat -> Shade)
      requires Valid() && Resolvable(CoolAll(balls[..], dt), touching)
      modifies this, balls, rings
      ensures Valid()
      ensures ballsN + ringsN == old(ballsN) + old(ringsN)
      ensures var p := AddBalls(CollideAll(CoolAll(old(balls[..]), dt), touching), old(rings[..]), jitter);
        ballsN == |p.balls| && ringsN == |p.rings|
        && (forall l :: 0 <= l < ballsN ==> balls[l] == StepBall(p.balls[l], p.rings, dt, atan2Deg, shade(l)))
        && (forall l :: 0 <= l < ringsN ==> rings[l] == Spin(p.rings[l], dt))
    {
      ghost var start := balls[..];
      ghost var layout := rings[..];
      CoolAndCollide(dt, touching);
      ghost var settled := balls[..];
      assert settled == CollideAll(CoolAll(start, dt), touching) && rings[..] == layout;
      AddBall(jitter);
      ghost var p := AddBalls(settled, layout, jitter);
      assert balls[..] == p.balls && rings[..] == p.rings;
      assert rings[..ringsN] == p.rings;
      MoveBalls(balls, ballsN, rings, ringsN, dt, atan2Deg, shade);
      assert forall l :: 0 <= l < ballsN ==> balls[l] == StepBall(p.balls[l], p.rings, dt, atan2Deg, shade(l));
      SpinRings(rings, ringsN, dt);
      assert forall l :: 0 <= l < ringsN ==> rings[l].innerR == p.rings[l].innerR;
    }
  }
}
