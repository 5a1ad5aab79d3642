/**
 The sweep `add_ball` makes over the balls, on values.

 Ball `j` triggers when it lies further from the window centre than some
 ring's inner radius minus its own radius. A triggering ball spawns a
 clone at the end of the array, the first ring is removed, the ball grows
 and speeds up, and the sweep goes on with the next ball. The loop bound
 is re-read on every step, so clones appended during the sweep are
 visited by the same sweep. `jitter(k)` is the random displacement of the
 `k`-th clone of the sweep.
 */
module Spawning {
  import opened Vector2
  import opened Entities
  import opened RingList

  /** `distance(ball.pos, center) > ring.inner_r - ball.radius`, without the square root. */
  predicate Escaped(b: Ball, ring: Ring) {
    LengthAbove(Sub(b.pos, Center), ring.innerR - b.radius)
  }

  /** `Escaped` compares the true distance from the centre with the ring's inner radius. */
  lemma {:induction false} EscapedExact(b: Ball, ring: Ring, dist: real)
    requires IsLength(Sub(b.pos, Center), dist)
    ensures Escaped(b, ring) <==> dist > ring.innerR - b.radius
  {
    LengthAboveExact(Sub(b.pos, Center), ring.innerR - b.radius, dist);
  }

  /** The inner `while` of `add_ball` finds some ring the ball has escaped. */
  predicate Triggers(b: Ball, rings: seq<Ring>) {
    exists i :: 0 <= i < |rings| && Escaped(b, rings[i])
  }

  /**
   With rings ordered from the inside out, a ball triggers exactly when it
   has escaped the first ring, which is the one `add_ball` removes.
   */
  lemma {:induction false} TriggersOnFirst(b: Ball, rings: seq<Ring>)
    requires InnerAscending(rings)
    ensures Triggers(b, rings) <==> |rings| > 0 && Escaped(b, rings[0])
  {
    if Triggers(b, rings) {
      var i :| 0 <= i < |rings| && Escaped(b, rings[i]);
      if i > 0 {
        assert rings[0].innerR <= rings[i].innerR;
        LengthAboveMonotone(Sub(b.pos, Center), rings[0].innerR - b.radius, rings[i].innerR - b.radius);
      }
    }
  }

  /** The clone: a copy with the spawn timer reset and the position displaced. */
  function Clone(b: Ball, off: Offset): (c: Ball)
    ensures c.spawnCooldown == SpawnImmunity
    ensures c.pos == Add(b.pos, Vec(off.dx as real, off.dy as real))
    ensures c.vel == b.vel && c.radius == b.radius && c.mass == b.mass && c.color == b.color
    ensures c.bounced == b.bounced
  {
    b.(spawnCooldown := SpawnImmunity, pos := Vec(b.pos.x + off.dx as real, b.pos.y + off.dy as real))
  }

  /** The spawning ball afterwards: 20% larger, 10% faster, otherwise the same. */
  function Grown(b: Ball): Ball {
    b.(radius := b.radius * GrowthFactor, vel := Scale(b.vel, SpeedBoost))
  }

  /** What one spawn does to the balls: ball `j` grows and its clone is appended. */
  function SpawnAt(balls: seq<Ball>, j: nat, off: Offset): (r: seq<Ball>)
    requires j < |balls|
    ensures |r| == |balls| + 1
    ensures r[j] == Grown(balls[j]) && r[|balls|] == Clone(balls[j], off)
    ensures forall l :: 0 <= l < |balls| && l != j ==> r[l] == balls[l]
  {
    balls[j := Grown(balls[j])] + [Clone(balls[j], off)]
  }

  /** Growth changes the radius and the velocity only, by the two factors. */
  lemma {:induction false} GrownChanges(b: Ball)
    ensures Grown(b).radius == b.radius * 1.2 && Grown(b).vel == Vec(b.vel.x * 1.1, b.vel.y * 1.1)
    ensures Grown(b).mass == b.mass && Grown(b).pos == b.pos && Grown(b).color == b.color
    ensures Grown(b).spawnCooldown == b.spawnCooldown && Grown(b).bounced == b.bounced
  {
  }

  /** Growth strictly enlarges a ball of positive radius and strictly speeds up a moving one. */
  lemma {:induction false} GrowthEnlarges(b: Ball)
    requires 0.0 < b.radius
    ensures b.radius < Grown(b).radius
    ensures Dot(b.vel, b.vel) != 0.0 ==> Dot(b.vel, b.vel) < Dot(Grown(b).vel, Grown(b).vel)
  {
    var v := b.vel;
    assert Dot(Grown(b).vel, Grown(b).vel) == 1.21 * Dot(v, v);
    if Dot(v, v) != 0.0 {
      assert 0.0 <= v.x * v.x && 0.0 <= v.y * v.y;
    }
  }

  datatype Population = Population(balls: seq<Ball>, rings: seq<Ring>, spawned: nat)

  /** The sweep of `add_ball` from ball `j` on, after `spawned` spawns. */
  function SweepFrom(balls: seq<Ball>, rings: seq<Ring>, j: nat, spawned: nat, jitter: nat -> Offset): Population
    requires j <= |balls|
    decreases |rings|, |balls| - j
  {
    if j == |balls| then
      Population(balls, rings, spawned)
    else if Triggers(balls[j], rings) then
      SweepFrom(SpawnAt(balls, j, jitter(spawned)), rings[1..], j + 1, spawned + 1, jitter)
    else
      SweepFrom(balls, rings, j + 1, spawned, jitter)
  }

  function AddBalls(balls: seq<Ball>, rings: seq<Ring>, jitter: nat -> Offset): Population {
    SweepFrom(balls, rings, 0, 0, jitter)
  }

  /**
   `r` has traded rings for balls one for one: the total count is kept,
   the remaining rings are the old ones without as many from the front as
   there were spawns, and the balls only grow in number.
   */
  predicate Trades(balls: seq<Ball>, rings: seq<Ring>, spawned: nat, r: Population) {
    |r.balls| + |r.rings| == |balls| + |rings| && |r.rings| <= |rings| && |balls| <= |r.balls|
    && r.rings == rings[|rings| - |r.rings|..] && r.spawned == spawned + (|rings| - |r.rings|)
  }

  /** A trade after one spawn, counted from before that spawn, is still a trade. */
  lemma {:induction false} TradesAfterSpawn(balls: seq<Ball>, rings: seq<Ring>, next: seq<Ball>, spawned: nat, r: Population)
    requires 1 <= |rings| && |next| == |balls| + 1 && Trades(next, rings[1..], spawned + 1, r)
    ensures Trades(balls, rings, spawned, r)
  {
    assert rings[1..][|rings| - 1 - |r.rings|..] == rings[|rings| - |r.rings|..];
  }

  /** Every spawn of the sweep trades one ring for one ball. */
  lemma {:induction false} SweepConserves(balls: seq<Ball>, rings: seq<Ring>, j: nat, spawned: nat, jitter: nat -> Offset)
    requires j <= |balls|
    ensures Trades(balls, rings, spawned, SweepFrom(balls, rings, j, spawned, jitter))
    decreases |rings|, |balls| - j
  {
    if j == |balls| {
    } else if Triggers(balls[j], rings) {
      var next := SpawnAt(balls, j, jitter(spawned));
      var tail := rings[1..];
      SweepConserves(next, tail, j + 1, spawned + 1, jitter);
      var r := SweepFrom(next, tail, j + 1, spawned + 1, jitter);
      assert SweepFrom(balls, rings, j, spawned, jitter) == r;
      TradesAfterSpawn(balls, rings, next, spawned, r);
    } else {
      SweepConserves(balls, rings, j + 1, spawned, jitter);
      assert SweepFrom(balls, rings, j, spawned, jitter) == SweepFrom(balls, rings, j + 1, spawned, jitter);
    }
  }

  /**
   `after` keeps the balls before `j`, and each ball from `j` on is either
   untouched or grown once.
   */
  predicate TouchedOnce(balls: seq<Ball>, j: nat, after: seq<Ball>) {
    |balls| <= |after|
    && (forall l :: 0 <= l < j && l < |balls| ==> after[l] == balls[l])
    && (forall l :: j <= l < |balls| ==> after[l] == balls[l] || after[l] == Grown(balls[l]))
  }

  /** What holds after a spawn from ball `j`, counted from `j + 1`, holds of the balls before it, from `j`. */
  lemma {:induction false} TouchedAfterSpawn(balls: seq<Ball>, j: nat, off: Offset, after: seq<Ball>)
    requires j < |balls| && TouchedOnce(SpawnAt(balls, j, off), j + 1, after)
    ensures TouchedOnce(balls, j, after)
  {
    var next := SpawnAt(balls, j, off);
    forall l | 0 <= l < |balls|
      ensures l < j ==> after[l] == balls[l]
      ensures j <= l ==> after[l] == balls[l] || after[l] == Grown(balls[l])
    {
      if l == j {
        assert after[l] == next[l];
      } else {
        assert next[l] == balls[l];
      }
    }
  }

  /**
   The balls already passed are left alone, and each ball still to come
   is either untouched or grown once.
   */
  lemma {:induction false} SweepTouchesOnce(balls: seq<Ball>, rings: seq<Ring>, j: nat, spawned: nat, jitter: nat -> Offset)
    requires j <= |balls|
    ensures TouchedOnce(balls, j, SweepFrom(balls, rings, j, spawned, jitter).balls)
    decreases |rings|, |balls| - j
  {
    if j == |balls| {
    } else if Triggers(balls[j], rings) {
      var next := SpawnAt(balls, j, jitter(spawned));
      SweepTouchesOnce(next, rings[1..], j + 1, spawned + 1, jitter);
      var r := SweepFrom(next, rings[1..], j + 1, spawned + 1, jitter);
      assert SweepFrom(balls, rings, j, spawned, jitter) == r;
      TouchedAfterSpawn(balls, j, jitter(spawned), r.balls);
    } else {
      SweepTouchesOnce(balls, rings, j + 1, spawned, jitter);
      assert SweepFrom(balls, rings, j, spawned, jitter) == SweepFrom(balls, rings, j + 1, spawned, jitter);
    }
  }

  /** Balls from ball `from` on carry the spawn timer of a fresh clone. */
  predicate ClonesFresh(balls: seq<Ball>, from: nat) {
    forall l :: from <= l < |balls| ==> balls[l].spawnCooldown == SpawnImmunity
  }

  /** Every ball the sweep appends starts with the one-second spawn timer, even if it spawned in turn. */
  lemma {:induction false} SweepClonesImmune(balls: seq<Ball>, rings: seq<Ring>, j: nat, spawned: nat,
                                            jitter: nat -> Offset, from: nat)
    requires j <= |balls| && from <= |balls|
    requires ClonesFresh(balls, from)
    ensures ClonesFresh(SweepFrom(balls, rings, j, spawned, jitter).balls, from)
    decreases |rings|, |balls| - j
  {
    if j == |balls| {
    } else if Triggers(balls[j], rings) {
      var next := SpawnAt(balls, j, jitter(spawned));
      assert ClonesFresh(next, from);
      SweepClonesImmune(next, rings[1..], j + 1, spawned + 1, jitter, from);
    } else {
      SweepClonesImmune(balls, rings, j + 1, spawned, jitter, from);
    }
  }

  /** No ball's mass ever changes, so balls of one mass stay of one mass. */
  predicate AllOfMass(balls: seq<Ball>, m: real) {
    forall l :: 0 <= l < |balls| ==> balls[l].mass == m
  }

  lemma {:induction false} SweepKeepsMass(balls: seq<Ball>, rings: seq<Ring>, j: nat, spawned: nat,
                                         jitter: nat -> Offset, m: real)
    requires j <= |balls| && AllOfMass(balls, m)
    ensures AllOfMass(SweepFrom(balls, rings, j, spawned, jitter).balls, m)
    decreases |rings|, |balls| - j
  {
    if j == |balls| {
    } else if Triggers(balls[j], rings) {
      var next := SpawnAt(balls, j, jitter(spawned));
      assert AllOfMass(next, m);
      SweepKeepsMass(next, rings[1..], j + 1, spawned + 1, jitter, m);
    } else {
      SweepKeepsMass(balls, rings, j + 1, spawned, jitter, m);
    }
  }

  /** Without rings nothing can trigger, and the sweep changes nothing. */
  lemma {:induction false} SweepWithoutRings(balls: seq<Ball>, j: nat, spawned: nat, jitter: nat -> Offset)
    requires j <= |balls|
    ensures SweepFrom(balls, [], j, spawned, jitter) == Population(balls, [], spawned)
    decreases |balls| - j
  {
    if j < |balls| {
      SweepWithoutRings(balls, j + 1, spawned, jitter);
    }
  }

  /** The rings left after the sweep keep the inside-out order. */
  lemma {:induction false} SweepKeepsOrder(balls: seq<Ball>, rings: seq<Ring>, jitter: nat -> Offset)
    requires InnerAscending(rings)
    ensures InnerAscending(AddBalls(balls, rings, jitter).rings)
  {
    SweepConserves(balls, rings, 0, 0, jitter);
    var r := AddBalls(balls, rings, jitter);
    SuffixAscending(rings, |rings| - |r.rings|);
  }
}
