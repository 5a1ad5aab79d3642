/**
 Ball-to-ball interaction: `elastic_collision` exchanges velocity between
 two balls along the line through their centres, `decrease_cooldown`
 counts their spawn timers down, and `handle_ball_collisions` runs the
 exchange over every pair, in order, for the balls whose timers have run
 out and that touch.

 raylib's `CheckCollisionCircles` is the parameter `touching`.
 */
module Impacts {
  import opened Vector2
  import opened Entities

  type Touch = (Vec, real, Vec, real) -> bool

  /**
   What `elastic_collision` needs to stay finite: distinct centres (it
   divides by their squared distance) and a nonzero total mass.
   */
  predicate Separated(b1: Ball, b2: Ball) {
    Dot(Sub(b1.pos, b2.pos), Sub(b1.pos, b2.pos)) != 0.0 && b1.mass + b2.mass != 0.0
  }

  /**
   One half of `elastic_collision`: the velocity `v` less `dp` scaled by
   the mass share times the relative velocity `dv` along `dp` over
   `distSquared`.
   */
  function Kick(v: Vec, dv: Vec, dp: Vec, share: real, distSquared: real): Vec
    requires distSquared != 0.0
  {
    Sub(v, Scale(dp, share * (Dot(dv, dp) / distSquared)))
  }

  /** `elastic_collision` on values: the two balls with their new velocities. */
  function Elastic(b1: Ball, b2: Ball): (r: (Ball, Ball))
    requires Separated(b1, b2)
    ensures SameExceptVel(r.0, b1) && SameExceptVel(r.1, b2)
  {
    var distSquared := Dot(Sub(b1.pos, b2.pos), Sub(b1.pos, b2.pos));
    var v1 := Kick(b1.vel, Sub(b1.vel, b2.vel), Sub(b1.pos, b2.pos), 2.0 * b2.mass / (b1.mass + b2.mass), distSquared);
    var v2 := Kick(b2.vel, Sub(b2.vel, b1.vel), Sub(b2.pos, b1.pos), 2.0 * b1.mass / (b1.mass + b2.mass), distSquared);
    (b1.(vel := v1), b2.(vel := v2))
  }

  /** Momentum `mass * vel` of one ball. */
  function Impulse(b: Ball): Vec {
    Scale(b.vel, b.mass)
  }

  /**
   The shape of the exchange: `w1 = v1 - f1 * dp` and `w2 = v2 + f2 * dp`,
   where the factors are the masses' shares of `2 * q`, `q` being the
   relative velocity along `dp` divided by `|dp|^2`.
   */
  predicate Exchange(v1: Vec, v2: Vec, dp: Vec, m1: real, m2: real, w1: Vec, w2: Vec, f1: real, f2: real, q: real) {
    w1 == Sub(v1, Scale(dp, f1)) && w2 == Add(v2, Scale(dp, f2))
    && SharesOf(m1, m2, f1, f2, q) && Along(q, Sub(v1, v2), dp)
  }

  /** `q` is the component of `dv` along `dp`, in units of `dp`. */
  predicate Along(q: real, dv: Vec, dp: Vec) {
    q * Dot(dp, dp) == Dot(dv, dp)
  }

  lemma AlongQuotient(q: real, dv: Vec, dp: Vec)
    requires Dot(dp, dp) != 0.0 && q == Dot(dv, dp) / Dot(dp, dp)
    ensures Along(q, dv, dp)
  {
    DivisionCancels(Dot(dv, dp), Dot(dp, dp));
  }

  /** The factors split `2 * q` between the balls in inverse proportion to their masses. */
  predicate SharesOf(m1: real, m2: real, f1: real, f2: real, q: real) {
    m1 * f1 == m2 * f2 && f1 + f2 == 2.0 * q
  }

  lemma Shares(m1: real, m2: real, q: real, f1: real, f2: real)
    requires m1 + m2 != 0.0
    requires f1 == (2.0 * m2 / (m1 + m2)) * q && f2 == (2.0 * m1 / (m1 + m2)) * q
    ensures SharesOf(m1, m2, f1, f2, q)
  {
    ShareBalance(m1, m2, q);
    ShareSum(m1, m2, q);
  }

  lemma ShareBalance(m1: real, m2: real, q: real)
    requires m1 + m2 != 0.0
    ensures m1 * ((2.0 * m2 / (m1 + m2)) * q) == m2 * ((2.0 * m1 / (m1 + m2)) * q)
  {
    DivisionCancels(2.0 * m2, m1 + m2);
    DivisionCancels(2.0 * m1, m1 + m2);
    var s1 := 2.0 * m2 / (m1 + m2);
    var s2 := 2.0 * m1 / (m1 + m2);
    assert (m1 * s1 - m2 * s2) * (m1 + m2) == 0.0;
    ZeroFactor(m1 * s1 - m2 * s2, m1 + m2);
  }

  lemma ShareSum(m1: real, m2: real, q: real)
    requires m1 + m2 != 0.0
    ensures (2.0 * m2 / (m1 + m2)) * q + (2.0 * m1 / (m1 + m2)) * q == 2.0 * q
  {
    DivisionCancels(2.0 * m2, m1 + m2);
    DivisionCancels(2.0 * m1, m1 + m2);
    var s1 := 2.0 * m2 / (m1 + m2);
    var s2 := 2.0 * m1 / (m1 + m2);
    assert (s1 + s2 - 2.0) * (m1 + m2) == 0.0;
    ZeroFactor(s1 + s2 - 2.0, m1 + m2);
    MulEqual(s1 + s2, 2.0, q);
  }

  lemma MulEqual(a: real, b: real, q: real)
    requires a == b
    ensures a * q == b * q
  {
  }

  /** Kicking the second ball is kicking it along the reversed line by the first ball's relative velocity. */
  lemma KickReversed(v: Vec, a: Vec, b: Vec, c: Vec, e: Vec, share: real, d: real)
    requires d != 0.0
    ensures Kick(v, Sub(b, a), Sub(e, c), share, d) == Add(v, Scale(Sub(c, e), share * (Dot(Sub(a, b), Sub(c, e)) / d)))
  {
    assert Dot(Sub(b, a), Sub(e, c)) == Dot(Sub(a, b), Sub(c, e));
  }

  /** The two new velocities, as multiples of `x1 - x2` added to the old ones. */
  lemma ElasticKicks(b1: Ball, b2: Ball, q: real, f1: real, f2: real)
    requires Separated(b1, b2)
    requires q == Dot(Sub(b1.vel, b2.vel), Sub(b1.pos, b2.pos)) / Dot(Sub(b1.pos, b2.pos), Sub(b1.pos, b2.pos))
    requires f1 == (2.0 * b2.mass / (b1.mass + b2.mass)) * q && f2 == (2.0 * b1.mass / (b1.mass + b2.mass)) * q
    ensures Elastic(b1, b2).0.vel == Sub(b1.vel, Scale(Sub(b1.pos, b2.pos), f1))
    ensures Elastic(b1, b2).1.vel == Add(b2.vel, Scale(Sub(b1.pos, b2.pos), f2))
  {
    KickReversed(b2.vel, b1.vel, b2.vel, b1.pos, b2.pos, 2.0 * b1.mass / (b1.mass + b2.mass),
                 Dot(Sub(b1.pos, b2.pos), Sub(b1.pos, b2.pos)));
  }

  /**
   `elastic_collision` is an exchange along `x1 - x2`, by the two mass
   shares of twice the relative velocity along that line over its squared
   length.
   */
  lemma {:induction false} ElasticIsExchange(b1: Ball, b2: Ball, q: real, f1: real, f2: real)
    requires Separated(b1, b2)
    requires q == Dot(Sub(b1.vel, b2.vel), Sub(b1.pos, b2.pos)) / Dot(Sub(b1.pos, b2.pos), Sub(b1.pos, b2.pos))
    requires f1 == (2.0 * b2.mass / (b1.mass + b2.mass)) * q && f2 == (2.0 * b1.mass / (b1.mass + b2.mass)) * q
    ensures Exchange(b1.vel, b2.vel, Sub(b1.pos, b2.pos), b1.mass, b2.mass, Elastic(b1, b2).0.vel, Elastic(b1, b2).1.vel, f1, f2, q)
  {
    ElasticKicks(b1, b2, q, f1, f2);
    AlongQuotient(q, Sub(b1.vel, b2.vel), Sub(b1.pos, b2.pos));
    Shares(b1.mass, b2.mass, q, f1, f2);
  }


  lemma {:induction false} ExchangeMomentum(v1: Vec, v2: Vec, dp: Vec, m1: real, m2: real, w1: Vec, w2: Vec, f1: real, f2: real, q: real)
    requires Exchange(v1, v2, dp, m1, m2, w1, w2, f1, f2, q)
    ensures Add(Scale(w1, m1), Scale(w2, m2)) == Add(Scale(v1, m1), Scale(v2, m2))
  {
    MomentumAlgebra(v1.x, v2.x, w1.x, w2.x, dp.x, m1, m2, f1, f2);
    MomentumAlgebra(v1.y, v2.y, w1.y, w2.y, dp.y, m1, m2, f1, f2);
  }

  lemma MomentumAlgebra(u1: real, u2: real, e1: real, e2: real, d: real, m1: real, m2: real, f1: real, f2: real)
    requires m1 * f1 == m2 * f2 && e1 == u1 - d * f1 && e2 == u2 + d * f2
    ensures e1 * m1 + e2 * m2 == u1 * m1 + u2 * m2
  {
    assert (u1 - d * f1) * m1 + (u2 + d * f2) * m2 == u1 * m1 + u2 * m2 - d * (m1 * f1) + d * (m2 * f2);
  }

  lemma {:induction false} ExchangeReverses(v1: Vec, v2: Vec, dp: Vec, m1: real, m2: real, w1: Vec, w2: Vec, f1: real, f2: real, q: real)
    requires Exchange(v1, v2, dp, m1, m2, w1, w2, f1, f2, q)
    ensures Dot(Sub(w1, w2), dp) == -Dot(Sub(v1, v2), dp)
  {
    assert Sub(w1, w2) == Sub(Sub(v1, v2), Scale(dp, f1 + f2));
    DotSubScale(Sub(v1, v2), dp, f1 + f2);
    MulEqual(f1 + f2, 2.0 * q, Dot(dp, dp));
  }

  lemma {:induction false} ExchangeEnergy(v1: Vec, v2: Vec, dp: Vec, m1: real, m2: real, w1: Vec, w2: Vec, f1: real, f2: real, q: real)
    requires Exchange(v1, v2, dp, m1, m2, w1, w2, f1, f2, q)
    ensures m1 * Dot(w1, w1) + m2 * Dot(w2, w2) == m1 * Dot(v1, v1) + m2 * Dot(v2, v2)
  {
    SubScaleSquare(v1, dp, f1, w1);
    AddScaleSquare(v2, dp, f2, w2);
    DotSubLeft(v1, v2, dp);
    EnergyAlgebra(m1, m2, Dot(w1, w1), Dot(w2, w2), Dot(v1, v1), Dot(v2, v2), f1, f2,
                  Dot(v1, dp), Dot(v2, dp), q, Dot(dp, dp), Dot(Sub(v1, v2), dp));
  }

  /** `e` is the squared length of `u - c * n`, written out: `|u|^2 - 2c(u.n) + c^2 |n|^2`. */
  predicate SquareLess(e: real, uu: real, c: real, un: real, nn: real) {
    e == uu - 2.0 * c * un + c * (c * nn)
  }

  /** `e` is the squared length of `u + c * n`, written out. */
  predicate SquareMore(e: real, uu: real, c: real, un: real, nn: real) {
    e == uu + 2.0 * c * un + c * (c * nn)
  }

  lemma SubScaleSquare(v: Vec, n: Vec, c: real, w: Vec)
    requires w == Sub(v, Scale(n, c))
    ensures SquareLess(Dot(w, w), Dot(v, v), c, Dot(v, n), Dot(n, n))
  {
    DotSubScale(v, n, c);
  }

  lemma AddScaleSquare(v: Vec, n: Vec, c: real, w: Vec)
    requires w == Add(v, Scale(n, c))
    ensures SquareMore(Dot(w, w), Dot(v, v), c, Dot(v, n), Dot(n, n))
  {
  }

  lemma DotSubLeft(a: Vec, b: Vec, n: Vec)
    ensures Dot(Sub(a, b), n) == Dot(a, n) - Dot(b, n)
  {
  }

  lemma EnergyAlgebra(m1: real, m2: real, e1: real, e2: real, u1: real, u2: real,
                      f1: real, f2: real, a1: real, a2: real, q: real, d2: real, a: real)
    requires SquareLess(e1, u1, f1, a1, d2) && SquareMore(e2, u2, f2, a2, d2)
    requires SharesOf(m1, m2, f1, f2, q) && q * d2 == a && a == a1 - a2
    ensures m1 * e1 + m2 * e2 == m1 * u1 + m2 * u2
  {
    var k := m1 * f1;
    MulEqual(f1 + f2, 2.0 * q, d2);
    MulEqual(m1 * f1, k, f1 * d2 - 2.0 * a1);
    MulEqual(m2 * f2, k, f2 * d2 + 2.0 * a2);
    MulEqual((f1 + f2) * d2, 2.0 * (a1 - a2), k);
    assert m1 * e1 == m1 * u1 + (m1 * f1) * (f1 * d2 - 2.0 * a1);
    assert m2 * e2 == m2 * u2 + (m2 * f2) * (f2 * d2 + 2.0 * a2);
  }

  /** Over the reals the exchange conserves total momentum. */
  lemma {:induction false} ElasticMomentum(b1: Ball, b2: Ball)
    requires Separated(b1, b2)
    ensures Add(Impulse(Elastic(b1, b2).0), Impulse(Elastic(b1, b2).1)) == Add(Impulse(b1), Impulse(b2))
  {
    var r := Elastic(b1, b2);
    var q := Dot(Sub(b1.vel, b2.vel), Sub(b1.pos, b2.pos)) / Dot(Sub(b1.pos, b2.pos), Sub(b1.pos, b2.pos));
    var f1 := (2.0 * b2.mass / (b1.mass + b2.mass)) * q;
    var f2 := (2.0 * b1.mass / (b1.mass + b2.mass)) * q;
    ElasticIsExchange(b1, b2, q, f1, f2);
    ExchangeMomentum(b1.vel, b2.vel, Sub(b1.pos, b2.pos), b1.mass, b2.mass, r.0.vel, r.1.vel, f1, f2, q);
  }

  /**
   The exchange reverses the relative velocity of the two balls along the
   line through their centres: they separate as fast as they approached.
   */
  lemma {:induction false} ElasticReverses(b1: Ball, b2: Ball)
    requires Separated(b1, b2)
    ensures var r := Elastic(b1, b2);
      Dot(Sub(r.0.vel, r.1.vel), Sub(b1.pos, b2.pos)) == -Dot(Sub(b1.vel, b2.vel), Sub(b1.pos, b2.pos))
  {
    var r := Elastic(b1, b2);
    var q := Dot(Sub(b1.vel, b2.vel), Sub(b1.pos, b2.pos)) / Dot(Sub(b1.pos, b2.pos), Sub(b1.pos, b2.pos));
    var f1 := (2.0 * b2.mass / (b1.mass + b2.mass)) * q;
    var f2 := (2.0 * b1.mass / (b1.mass + b2.mass)) * q;
    ElasticIsExchange(b1, b2, q, f1, f2);
    ExchangeReverses(b1.vel, b2.vel, Sub(b1.pos, b2.pos), b1.mass, b2.mass, r.0.vel, r.1.vel, f1, f2, q);
  }

  /** Over the reals the exchange also conserves kinetic energy, `m1*|v1|^2 + m2*|v2|^2`. */
  lemma {:induction false} ElasticEnergy(b1: Ball, b2: Ball)
    requires Separated(b1, b2)
    ensures var r := Elastic(b1, b2);
      b1.mass * Dot(r.0.vel, r.0.vel) + b2.mass * Dot(r.1.vel, r.1.vel)
      == b1.mass * Dot(b1.vel, b1.vel) + b2.mass * Dot(b2.vel, b2.vel)
  {
    var r := Elastic(b1, b2);
    var q := Dot(Sub(b1.vel, b2.vel), Sub(b1.pos, b2.pos)) / Dot(Sub(b1.pos, b2.pos), Sub(b1.pos, b2.pos));
    var f1 := (2.0 * b2.mass / (b1.mass + b2.mass)) * q;
    var f2 := (2.0 * b1.mass / (b1.mass + b2.mass)) * q;
    ElasticIsExchange(b1, b2, q, f1, f2);
    ExchangeEnergy(b1.vel, b2.vel, Sub(b1.pos, b2.pos), b1.mass, b2.mass, r.0.vel, r.1.vel, f1, f2, q);
  }

  /** `decrease_cooldown` on one ball: a running timer counts down by `dt`; an expired one is left alone. */
  function Cooled(b: Ball, dt: real): Ball {
    if b.spawnCooldown > 0.0 then b.(spawnCooldown := b.spawnCooldown - dt) else b
  }

  /** The timer is the only field that changes, and it never rises for `dt >= 0`. */
  lemma {:induction false} CooledOnlyTimer(b: Ball, dt: real)
    requires 0.0 <= dt
    ensures var c := Cooled(b, dt);
      c.pos == b.pos && c.vel == b.vel && c.radius == b.radius && c.mass == b.mass
      && c.color == b.color && c.bounced == b.bounced && c.spawnCooldown <= b.spawnCooldown
  {
  }

  /** The ball after `n` frames of length `dt`. */
  function CooledFor(b: Ball, dt: real, n: nat): Ball
    decreases n
  {
    if n == 0 then b else CooledFor(Cooled(b, dt), dt, n - 1)
  }

  /**
   A ball is eligible for collisions once its timer has reached zero; the
   timer is not clamped, so it may end up below zero.
   */
  predicate Eligible(b: Ball) {
    b.spawnCooldown <= 0.0
  }

  /** An eligible ball stays eligible and unchanged. */
  lemma {:induction false} EligibleStays(b: Ball, dt: real, n: nat)
    requires Eligible(b)
    ensures CooledFor(b, dt, n) == b
    decreases n
  {
    if n > 0 {
      EligibleStays(b, dt, n - 1);
    }
  }

  /** After frames adding up to at least the timer, the ball is eligible. */
  lemma {:induction false} CooldownExpires(b: Ball, dt: real, n: nat)
    requires 0.0 < dt && b.spawnCooldown <= n as real * dt
    ensures Eligible(CooledFor(b, dt, n))
    decreases n
  {
    if n > 0 {
      if Eligible(b) {
        EligibleStays(b, dt, n);
      } else {
        assert (n - 1) as real * dt == n as real * dt - dt;
        CooldownExpires(Cooled(b, dt), dt, n - 1);
      }
    }
  }

  /** `decrease_cooldown`: the first `ballsN` balls are cooled, the rest of the array is unchanged. */
  method DecreaseCooldown(balls: array<Ball>, ballsN: nat, dt: real)
    requires ballsN <= balls.Length
    modifies balls
    ensures forall l :: 0 <= l < ballsN ==> balls[l] == Cooled(old(balls[l]), dt)
    ensures forall l :: ballsN <= l < balls.Length ==> balls[l] == old(balls[l])
  {
    for i := 0 to ballsN
      invariant forall l :: 0 <= l < i ==> balls[l] == Cooled(old(balls[l]), dt)
      invariant forall l :: i <= l < balls.Length ==> balls[l] == old(balls[l])
    {
      if balls[i].spawnCooldown > 0.0 {
        balls[i] := balls[i].(spawnCooldown := balls[i].spawnCooldown - dt);
      }
    }
  }

  /** The gate of `handle_ball_collisions` for the pair `i`, `j`. */
  predicate Meets(s: seq<Ball>, i: nat, j: nat, touching: Touch)
    requires i < |s| && j < |s|
  {
    Eligible(s[i]) && Eligible(s[j]) && touching(s[i].pos, s[i].radius, s[j].pos, s[j].radius)
  }

  /** Every pair that passes the gate can be exchanged without dividing by zero. */
  predicate Resolvable(s: seq<Ball>, touching: Touch) {
    forall i, j :: 0 <= i < j < |s| && Meets(s, i, j, touching) ==> Separated(s[i], s[j])
  }

  /** The two sequences agree pointwise on everything but the velocities. */
  predicate SameBodies(r: seq<Ball>, s: seq<Ball>) {
    |r| == |s| && forall k :: 0 <= k < |s| ==> SameExceptVel(r[k], s[k])
  }

  /** Velocities enter neither the gate nor the precondition, so both survive a pass. */
  lemma {:induction false} SameBodiesResolvable(r: seq<Ball>, s: seq<Ball>, touching: Touch)
    requires SameBodies(r, s) && Resolvable(s, touching)
    ensures Resolvable(r, touching)
    ensures forall i, j :: 0 <= i < |s| && 0 <= j < |s| ==> (Meets(r, i, j, touching) <==> Meets(s, i, j, touching))
  {
    forall i, j | 0 <= i < |s| && 0 <= j < |s|
      ensures Meets(r, i, j, touching) <==> Meets(s, i, j, touching)
    {
      assert SameExceptVel(r[i], s[i]) && SameExceptVel(r[j], s[j]);
    }
  }

  /** One step of the inner loop: the pair `i`, `j` is exchanged if it passes the gate. */
  function Collide(s: seq<Ball>, i: nat, j: nat, touching: Touch): (r: seq<Ball>)
    requires i < j < |s| && Resolvable(s, touching)
    ensures SameBodies(r, s)
    ensures forall k :: 0 <= k < |s| && k != i && k != j ==> r[k] == s[k]
  {
    if Meets(s, i, j, touching) then
      var p := Elastic(s[i], s[j]);
      s[i := p.0][j := p.1]
    else
      s
  }

  /** The pass of `handle_ball_collisions` from the pair `i`, `j` on, in loop order. */
  function PassFrom(s: seq<Ball>, i: nat, j: nat, touching: Touch): (r: seq<Ball>)
    requires i < j && Resolvable(s, touching)
    decreases |s| - i, |s| - j
  {
    if i >= |s| then s
    else if j >= |s| then PassFrom(s, i + 1, i + 2, touching)
    else
      SameBodiesResolvable(Collide(s, i, j, touching), s, touching);
      PassFrom(Collide(s, i, j, touching), i, j + 1, touching)
  }

  /** The whole pass, from the pair `0`, `1`. */
  function CollideAll(s: seq<Ball>, touching: Touch): seq<Ball>
    requires Resolvable(s, touching)
  {
    PassFrom(s, 0, 1, touching)
  }

  /**
   The pass changes velocities only, and never the velocity of a ball
   whose spawn timer is still running.
   */
  lemma {:induction false} PassKeepsBodies(s: seq<Ball>, i: nat, j: nat, touching: Touch)
    requires i < j && Resolvable(s, touching)
    ensures var r := PassFrom(s, i, j, touching);
      SameBodies(r, s) && forall k :: 0 <= k < |s| && !Eligible(s[k]) ==> r[k] == s[k]
    decreases |s| - i, |s| - j
  {
    if i >= |s| {
    } else if j >= |s| {
      PassKeepsBodies(s, i + 1, i + 2, touching);
    } else {
      var c := Collide(s, i, j, touching);
      SameBodiesResolvable(c, s, touching);
      PassKeepsBodies(c, i, j + 1, touching);
      forall k | 0 <= k < |s| && !Eligible(s[k])
        ensures c[k] == s[k]
      {
        assert !Meets(s, i, j, touching) || (k != i && k != j);
      }
    }
  }

  /** Total momentum of the balls. */
  function Momentum(s: seq<Ball>): Vec
    decreases |s|
  {
    if |s| == 0 then Zero else Add(Momentum(s[..|s| - 1]), Impulse(s[|s| - 1]))
  }

  /** Replacing one ball changes the total by the difference of the two impulses. */
  lemma {:induction false} MomentumUpdate(s: seq<Ball>, k: nat, b: Ball)
    requires k < |s|
    ensures Momentum(s[k := b]) == Add(Sub(Momentum(s), Impulse(s[k])), Impulse(b))
    decreases |s|
  {
    var t := s[k := b];
    if k == |s| - 1 {
      assert t[..|t| - 1] == s[..|s| - 1];
    } else {
      assert t[..|t| - 1] == s[..|s| - 1][k := b];
      MomentumUpdate(s[..|s| - 1], k, b);
    }
  }

  /** Each exchange of the pass conserves the total momentum. */
  lemma {:induction false} CollideMomentum(s: seq<Ball>, i: nat, j: nat, touching: Touch)
    requires i < j < |s| && Resolvable(s, touching)
    ensures Momentum(Collide(s, i, j, touching)) == Momentum(s)
  {
    if Meets(s, i, j, touching) {
      var p := Elastic(s[i], s[j]);
      ElasticMomentum(s[i], s[j]);
      MomentumUpdate(s, i, p.0);
      MomentumUpdate(s[i := p.0], j, p.1);
    }
  }

  /** Over the reals the whole pass conserves the total momentum. */
  lemma {:induction false} PassMomentum(s: seq<Ball>, i: nat, j: nat, touching: Touch)
    requires i < j && Resolvable(s, touching)
    ensures Momentum(PassFrom(s, i, j, touching)) == Momentum(s)
    decreases |s| - i, |s| - j
  {
    if i >= |s| {
    } else if j >= |s| {
      PassMomentum(s, i + 1, i + 2, touching);
    } else {
      var c := Collide(s, i, j, touching);
      SameBodiesResolvable(c, s, touching);
      CollideMomentum(s, i, j, touching);
      PassMomentum(c, i, j + 1, touching);
    }
  }

  /**
   `handle_ball_collisions`: for every pair `i < j` in loop order, exchange
   velocities when both timers have run out and the balls touch.
   */
  method HandleBallCollisions(balls: array<Ball>, ballsN: nat, touching: Touch)
    requires ballsN <= balls.Length && Resolvable(balls[..ballsN], touching)
    modifies balls
    ensures balls[..ballsN] == CollideAll(old(balls[..ballsN]), touching)
    ensures balls[ballsN..] == old(balls[ballsN..])
  {
    for i := 0 to ballsN
      invariant Resolvable(balls[..ballsN], touching)
      invariant PassFrom(balls[..ballsN], i, i + 1, touching) == CollideAll(old(balls[..ballsN]), touching)
      invariant balls[ballsN..] == old(balls[ballsN..])
    {
      for j := i + 1 to ballsN
        invariant Resolvable(balls[..ballsN], touching)
        invariant PassFrom(balls[..ballsN], i, j, touching) == CollideAll(old(balls[..ballsN]), touching)
        invariant balls[ballsN..] == old(balls[ballsN..])
      {
        ghost var s := balls[..ballsN];
        if balls[i].spawnCooldown <= 0.0 && balls[j].spawnCooldown <= 0.0
           && touching(balls[i].pos, balls[i].radius, balls[j].pos, balls[j].radius)
        {
          assert Meets(s, i, j, touching);
          var p := Elastic(balls[i], balls[j]);
          balls[i] := p.0;
          balls[j] := p.1;
        }
        assert balls[..ballsN] == Collide(s, i, j, touching);
        SameBodiesResolvable(balls[..ballsN], s, touching);
      }
    }
  }
}
