/**
 What happens to one ball and one ring in a frame: `update_ball` applies
 gravity and then either bounces the ball off the first ring it would hit
 or moves it freely; `spin_ring` turns a ring's arc.

 Balls and rings live in arrays, as in the C program; a pointer to an
 element becomes an array and an index.
 */
module Motion {
  import opened Vector2
  import opened Entities
  import opened Collision

  datatype Option<T> = None | Some(value: T)

  /** The velocity after gravity has acted for `dt` seconds. */
  function Fallen(b: Ball, dt: real): Vec {
    Add(b.vel, Scale(Gravity, dt))
  }

  /**
   The ball `update_ball` tests against the rings: not bounced, with the
   new velocity, placed where a free move would take it.
   */
  function Probe(b: Ball, dt: real): (p: Ball)
    ensures p.radius == b.radius && p.vel == Fallen(b, dt) && !p.bounced
    ensures p.pos == Add(b.pos, Scale(p.vel, dt))
  {
    var v := Fallen(b, dt);
    b.(bounced := false, vel := v, pos := Add(b.pos, Scale(v, dt)))
  }

  /** The lowest index from `from` on of a ring that `probe` hits. */
  function FirstHit(probe: Ball, rings: seq<Ring>, from: nat, atan2Deg: (real, real) -> real): (r: Option<nat>)
    requires from <= |rings|
    ensures r.Some? ==> from <= r.value < |rings| && CheckCollision(probe, rings[r.value], atan2Deg)
    ensures r.Some? ==> forall l :: from <= l < r.value ==> !CheckCollision(probe, rings[l], atan2Deg)
    ensures r.None? ==> forall l :: from <= l < |rings| ==> !CheckCollision(probe, rings[l], atan2Deg)
    decreases |rings| - from
  {
    if from == |rings| then None
    else if CheckCollision(probe, rings[from], atan2Deg) then Some(from)
    else FirstHit(probe, rings, from + 1, atan2Deg)
  }

  /** `update_ball` on values: the ball after one call. */
  function StepBall(b: Ball, rings: seq<Ring>, dt: real, atan2Deg: (real, real) -> real, shade: Shade): Ball {
    var probe := Probe(b, dt);
    match FirstHit(probe, rings, 0, atan2Deg)
    case Some(j) =>
      b.(vel := Reflect(probe.vel, Sub(b.pos, rings[j].center)), color := Paint(b.color, shade), bounced := true)
    case None =>
      probe
  }

  /** Size, mass and spawn timer are never touched by `update_ball`. */
  lemma {:induction false} StepKeepsBody(b: Ball, rings: seq<Ring>, dt: real, atan2Deg: (real, real) -> real, shade: Shade)
    ensures var r := StepBall(b, rings, dt, atan2Deg, shade);
      r.radius == b.radius && r.mass == b.mass && r.spawnCooldown == b.spawnCooldown
  {
  }

  /**
   The ball bounces exactly when some ring hits it at the position a free
   move would reach. Then it acts on the lowest such ring: it stays where
   it was, it is repainted, and the component of its velocity (after
   gravity) along the line from that ring's centre to the old position is
   reversed: the velocity is mirrored in the line orthogonal to it.
   */
  lemma {:induction false} StepBounces(b: Ball, rings: seq<Ring>, dt: real, atan2Deg: (real, real) -> real, shade: Shade)
    ensures var r := StepBall(b, rings, dt, atan2Deg, shade);
      r.bounced <==> exists j :: 0 <= j < |rings| && CheckCollision(Probe(b, dt), rings[j], atan2Deg)
    ensures var r := StepBall(b, rings, dt, atan2Deg, shade);
      r.bounced ==> (exists j :: 0 <= j < |rings| && CheckCollision(Probe(b, dt), rings[j], atan2Deg)
                       && (forall l :: 0 <= l < j ==> !CheckCollision(Probe(b, dt), rings[l], atan2Deg))
                       && r.pos == b.pos && r.color == Paint(b.color, shade)
                       && r.vel == Reflect(Fallen(b, dt), Sub(b.pos, rings[j].center)))
  {
    match FirstHit(Probe(b, dt), rings, 0, atan2Deg)
    case Some(j) =>
    case None =>
  }

  /** Without a hit the ball moves by its new velocity over `dt` and keeps its colour. */
  lemma {:induction false} StepMovesFreely(b: Ball, rings: seq<Ring>, dt: real, atan2Deg: (real, real) -> real, shade: Shade)
    requires forall j :: 0 <= j < |rings| ==> !CheckCollision(Probe(b, dt), rings[j], atan2Deg)
    ensures var r := StepBall(b, rings, dt, atan2Deg, shade);
      !r.bounced && r.vel == Fallen(b, dt) && r.pos == Add(b.pos, Scale(Fallen(b, dt), dt))
      && r.color == b.color
  {
    assert FirstHit(Probe(b, dt), rings, 0, atan2Deg).None?;
  }

  /**
   A bounce keeps the speed and, off a ring whose centre is not the old
   position, reverses the velocity's component along the line from that
   centre to the ball.
   */
  lemma {:induction false} BounceKeepsSpeed(b: Ball, rings: seq<Ring>, dt: real, atan2Deg: (real, real) -> real, shade: Shade)
    ensures var r := StepBall(b, rings, dt, atan2Deg, shade);
      r.bounced ==> Dot(r.vel, r.vel) == Dot(Fallen(b, dt), Fallen(b, dt))
    ensures var r := StepBall(b, rings, dt, atan2Deg, shade);
      var hit := FirstHit(Probe(b, dt), rings, 0, atan2Deg);
      hit.Some? && Dot(Sub(b.pos, rings[hit.value].center), Sub(b.pos, rings[hit.value].center)) != 0.0 ==>
        Dot(r.vel, Sub(b.pos, rings[hit.value].center)) == -Dot(Fallen(b, dt), Sub(b.pos, rings[hit.value].center))
  {
    match FirstHit(Probe(b, dt), rings, 0, atan2Deg)
    case Some(j) =>
      ReflectPreservesSpeed(Fallen(b, dt), Sub(b.pos, rings[j].center));
    case None =>
  }

  /**
   `update_ball` normalises the vector from the ring centre to the ball,
   and `vector2reflect` normalises it once more before applying its
   formula. For the true lengths `len` and `len1` of the two vectors this
   is the reflection `Reflect` about the unnormalised vector.
   */
  lemma {:induction false} BounceMatchesSource(v: Vec, toBall: Vec, len: real, len1: real)
    requires IsLength(toBall, len)
    requires IsLength(Normalize(toBall, len), len1)
    ensures ReflectUnit(v, Normalize(Normalize(toBall, len), len1)) == Reflect(v, toBall)
  {
    var n := Normalize(toBall, len);
    ReflectMatchesSource(v, n, len1);
    if len == 0.0 {
      assert Dot(toBall, toBall) == 0.0;
      assert n == Zero;
    } else {
      NormalizeUnit(toBall, len);
      ReflectScaleInvariant(v, n, len);
    }
  }

  /**
   `update_ball` on `balls[k]`: the ball becomes `StepBall` of itself and
   no other ball changes.
   */
  method UpdateBall(balls: array<Ball>, k: nat, rings: array<Ring>, ringsN: nat, dt: real,
                    atan2Deg: (real, real) -> real, shade: Shade)
    requires k < balls.Length && ringsN <= rings.Length
    modifies balls
    ensures balls[..] == old(balls[..])[k := StepBall(old(balls[k]), rings[..ringsN], dt, atan2Deg, shade)]
  {
    ghost var before := balls[k];
    balls[k] := balls[k].(bounced := false);
    balls[k] := balls[k].(vel := Add(balls[k].vel, Scale(Gravity, dt)));
    var nextPos := Add(balls[k].pos, Scale(balls[k].vel, dt));
    assert balls[k].(pos := nextPos) == Probe(before, dt);
    var i := 0;
    while i < ringsN
      invariant 0 <= i <= ringsN
      invariant balls[..] == old(balls[..])[k := before.(bounced := false, vel := Fallen(before, dt))]
      invariant forall l :: 0 <= l < i ==> !CheckCollision(Probe(before, dt), rings[l], atan2Deg)
    {
      var testBall := balls[k].(pos := nextPos);
      if CheckCollision(testBall, rings[i], atan2Deg) {
        var toBall := Sub(balls[k].pos, rings[i].center);
        balls[k] := balls[k].(vel := Reflect(balls[k].vel, toBall));
        balls[k] := balls[k].(color := Paint(balls[k].color, shade));
        balls[k] := balls[k].(bounced := true);
        assert FirstHit(Probe(before, dt), rings[..ringsN], 0, atan2Deg) == Some(i);
        return;
      }
      i := i + 1;
    }
    assert FirstHit(Probe(before, dt), rings[..ringsN], 0, atan2Deg) == None;
    balls[k] := balls[k].(pos := nextPos);
  }

  /** `spin_ring`: both ends of the arc advance by `vel * dt`. */
  function Spin(r: Ring, dt: real): (s: Ring)
    ensures s.start == r.start + r.vel * dt
    ensures s.end - s.start == r.end - r.start
    ensures s.innerR == r.innerR && s.outerR == r.outerR && s.center == r.center && s.vel == r.vel
  {
    r.(start := r.start + r.vel * dt, end := r.end + r.vel * dt)
  }

  /** Spinning for `a` and then `b` seconds is spinning for `a + b`; spinning for no time does nothing. */
  lemma {:induction false} SpinAdds(r: Ring, a: real, b: real)
    ensures Spin(Spin(r, a), b) == Spin(r, a + b)
    ensures Spin(r, 0.0) == r
  {
    assert r.start + r.vel * a + r.vel * b == r.start + r.vel * (a + b);
    assert r.end + r.vel * a + r.vel * b == r.end + r.vel * (a + b);
  }

  /** A spin by whole turns leaves every hit test as it was. */
  lemma {:induction false} SpinWholeTurns(ball: Ball, r: Ring, dt: real, turns: int, atan2Deg: (real, real) -> real)
    requires r.vel * dt == 360.0 * turns as real
    ensures CheckCollision(ball, Spin(r, dt), atan2Deg) == CheckCollision(ball, r, atan2Deg)
  {
    var r1 := r.(start := r.start + 360.0 * turns as real);
    var r2 := r1.(end := r1.end + 360.0 * turns as real);
    assert Spin(r, dt) == r2;
    WholeTurnsInvariant(ball, r, atan2Deg, turns, turns);
    assert CheckCollision(ball, r1, atan2Deg) == CheckCollision(ball, r, atan2Deg);
    WholeTurnsInvariant(ball, r1, atan2Deg, turns, turns);
    assert CheckCollision(ball, r2, atan2Deg) == CheckCollision(ball, r1, atan2Deg);
  }

  /** `spin_ring` on `rings[k]`; no other ring changes. */
  method SpinRing(rings: array<Ring>, k: nat, dt: real)
    requires k < rings.Length
    modifies rings
    ensures rings[..] == old(rings[..])[k := Spin(old(rings[k]), dt)]
  {
    var turn := rings[k].vel * dt;
    rings[k] := rings[k].(start := rings[k].start + turn);
    rings[k] := rings[k].(end := rings[k].end + turn);
    assert rings[k] == Spin(old(rings[k]), dt);
  }
}
