# Spin and bounce: the simulation core of `spin.c`

`spin.c` is a small raylib toy. Nine concentric rings spin around the
centre of an 800 by 800 window. Each ring is an arc from 0 to 330 degrees
with a gap, and each spins faster than the one inside it. A ball starts
at the centre and falls under gravity. It bounces off any ring whose arc
it would touch, and it takes a new random colour on each bounce.

When a ball gets past the innermost ring, that ring disappears. The ball
grows by 20% and speeds up by 10%. A clone of the ball is appended to
the population with a one-second spawn timer. Balls whose timers have
run out exchange velocity when they touch, as in an elastic collision.

This project models one frame of that simulation over the reals: the
vector helpers, the ring hit test, the per-ball integrator, ring spin,
ring generation and removal, ball duplication, the cooldown countdown,
the pairwise collision pass and the frame that calls them in `main`'s
order.

Modules follow the structure of the program:

- `Vector2`: the vector helpers. Lengths are handled without a square root.
- `Entities`: the `Ring` and `Ball` records and the program's constants.
- `Collision`: `check_collision`.
- `Motion`: `update_ball` and `spin_ring`.
- `RingList`: `generate_rings` and `remove_ring`.
- `Buffers`: `realloc`.
- `Spawning`: the sweep of `add_ball`, on values.
- `Impacts`: `elastic_collision`, `decrease_cooldown` and `handle_ball_collisions`.
- `Game`: the four variables `main` keeps between frames, as the class `World`, with `add_ball` and one frame.

The operations that update the ring and ball arrays in place in C are
methods over Dafny arrays. Each such method is proved equal to a function
on sequences, and the properties are proved about those functions.

Two C operations write through a pointer to a single record but are
modelled as functions on values. Each is applied at its call site:

- `elastic_collision` writes `b1->vel` and `b2->vel`. It is `Impacts.Elastic`, applied in `HandleBallCollisions` through `Collide`.
- `update_color` writes the ball's colour. It is `Entities.Paint`, applied in `UpdateBall`.

Inputs the core gets from raylib or the C library are parameters:

- `atan2Deg` stands for `atan2f(y, x) * 180 / PI`.
- `touching` stands for `CheckCollisionCircles`.
- `shade(i)` stands for the three `GetRandomValue(0, 255)` draws of a bounce by ball `i`.
- `jitter(k)` stands for the two `GetRandomValue(-10, 10)` draws of the `k`-th clone of a sweep.
- `dt` stands for `GetFrameTime()`.

Square roots never appear. A comparison `dist < b` or `dist > b` is
decided on squares (`LengthBelow`, `LengthAbove`). Lemmas show that this
agrees with any true length `len >= 0` with `len * len == x*x + y*y`
(`IsLength`).

Some behaviours of the code are easy to misread. The model follows the
code literally:

- **Full lap.** When the normalised `start` equals the normalised `end`, the test `angle >= start || angle <= end` holds at every angle. Such a ring is a full circle (`Collision.FullLap`), not a ring hit only at `angle >= start`.
- **One spawn per visit.** `add_ball` spawns from a visited ball at most once, because the inner loop `break`s after the first spawn. It does not keep consuming rings for that ball.
- **Which ring goes.** The inner loop tests rings in index order, but the ring removed is always ring 0. With the rings ordered from the inside out, a ball escapes some ring exactly when it escapes ring 0 (`Spawning.TriggersOnFirst`).
- **Clones are revisited.** Clones appended during the sweep are visited later in the same sweep, because the loop bound `*balls_n` is re-read on every step.
- **Radii.** `generate_rings` gives each ring an inner radius 5 larger than its outer radius (70 and 65 for the first ring). The model keeps these values, and the band test is stated for them as written.

## Model

| member | source | states |
|---|---|---|
| Vector2.Add | spin.c:44-46 | defines `vector2add`: the componentwise sum |
| Vector2.Sub | spin.c:71-73 | defines `vector2subtract`: the componentwise difference |
| Vector2.Scale | spin.c:40-42 | defines `vector2scale`: both components multiplied by the factor |
| Vector2.Dot | spin.c:48-50 | defines `vector2dot`: `x1*x2 + y1*y2` |
| Vector2.LengthBelowExact | spin.c:52-54 | the square-free test `LengthBelow(v, b)` holds exactly when the true length of `v` is below `b` |
| Vector2.LengthAboveExact | spin.c:75-79 | the square-free test `LengthAbove(v, b)` holds exactly when the true length (the `distance`) is above `b` |
| Vector2.Normalize | spin.c:56-60 | a zero-length vector normalises to the zero vector; any other vector is its normalised form scaled back by its length |
| Vector2.NormalizeUnit | spin.c:56-60 | a nonzero vector normalises to a vector of length one |
| Vector2.Reflect | spin.c:62-69 | defines the reflection without a square root: `v` less `normal` times `2 (v . normal) / (normal . normal)`, and `v` itself for a zero normal |
| Vector2.ReflectUnit | spin.c:64-68 | defines the formula `vector2reflect` applies to its normalised normal `n`: `v - 2 (v . n) n` |
| Vector2.ReflectPreservesSpeed | spin.c:62-69 | reflection keeps the squared speed and negates the velocity's component along a nonzero normal |
| Vector2.ReflectInvolutive | spin.c:62-69 | reflecting twice about the same normal gives back the original vector |
| Vector2.ScaledStep | spin.c:62-69 | for a nonzero normal grown by `k > 0`, the reflection correction is the same vector as for the original normal |
| Vector2.ReflectScaleInvariant | spin.c:62-69 | scaling the normal by any positive factor leaves the reflection unchanged |
| Vector2.ReflectMatchesSource | spin.c:62-69 | `vector2reflect`'s formula with its normal normalised is the square-root-free reflection `Reflect` |
| Entities.InitialBall | spin.c:235-239 | defines the starting ball: at the window centre, velocity (10, 10), radius 8, mass 10, colour (0, 10, 20, 255), not bounced, spawn timer 1 |
| Entities.RingAt | spin.c:112-123 | ring `i` has `start` 0, `end` 330, the window centre as its centre, and an inner radius 5 above its outer radius |
| Entities.RingsNest | spin.c:114-120 | a ring further out has larger radii, by at least one 40-unit step, and a faster spin |
| Entities.Paint | spin.c:125-129 | a bounce replaces the red, green and blue channels by the three draws and keeps alpha |
| Buffers.Resized | spin.c:155 | `realloc` returns a fresh array of the new size that keeps the old elements up to the smaller of the two sizes |
| Collision.Trunc | spin.c:103-104 | the quotient `fmodf` uses is rounded toward zero |
| Collision.FMod360 | spin.c:103-104 | `fmodf(x, 360)` lies in [0, 360) for `x >= 0` and in (-360, 0] for `x < 0`, and differs from `x` by whole turns |
| Collision.WrapDegrees | spin.c:103-106 | the normalised `start` and `end` lie in [0, 360) |
| Collision.WrapIsFloorMod | spin.c:103-106 | the normalisation equals the floor-based remainder `x - 360 * floor(x / 360)` |
| Collision.WrapPeriodic | spin.c:103-106 | angles a whole number of turns apart normalise to the same value |
| Collision.WrapIdentity | spin.c:103-106 | an angle already in [0, 360) is left unchanged |
| Collision.Heading | spin.c:100-101 | the ball's heading is the raw `atan2f` angle or that angle plus 360, and lies in [0, 360) for raw angles in [-360, 360) |
| Collision.InBand | spin.c:95-99 | defines the radial filter with its bounds as written: neither below `inner_r - radius + width` nor above `outer_r + radius - width` |
| Collision.InArc | spin.c:108-109 | defines the arc test on normalised angles: `start <= angle <= end` when `start < end`, otherwise `angle >= start` or `angle <= end` |
| Collision.BallHeading | spin.c:95-101 | defines the heading of the ball seen from the ring centre: `Heading` of the `atan2f` angle of `to_ball` |
| Collision.CheckCollision | spin.c:94-110 | defines `check_collision`: the radial filter, then the arc test on the heading and the normalised `start` and `end` |
| Collision.BandExact | spin.c:95-99 | the ring-width terms cancel: the band filter passes exactly when `outer_r - radius <= dist <= inner_r + radius` |
| Collision.CentreOutOfBand | spin.c:95-99 | a ball at the ring centre whose radius is below `outer_r` fails the band filter |
| Collision.CentreMisses | spin.c:94-110 | such a ball is never hit, whatever its heading |
| Collision.InitialBallTouchesNothing | spin.c:94-99 | the starting ball (at the centre, radius 8) touches none of the generated rings |
| Collision.WholeTurnsInvariant | spin.c:100-109 | adding whole turns to `start` or to `end` never changes the hit test |
| Collision.FullLap | spin.c:108-109 | a ring whose normalised ends coincide hits exactly the balls that pass the band filter |
| Collision.Sweep | spin.c:108-109 | the counter-clockwise angle from one heading to another, used as an independent description of an arc, lies in [0, 360) |
| Collision.SweepValue | spin.c:108-109 | for normalised angles the sweep is `to - from`, plus 360 when `to` comes before `from` |
| Collision.InArcIsSweep | spin.c:108-109 | for distinct normalised ends, both branches of the arc test say that the heading is reached from `start` no later than `end` |
| Collision.HitBySweep | spin.c:94-110 | a ball is hit exactly when it passes the band filter and either the ends coincide or its heading lies on the sweep from `start` to `end` |
| Motion.Fallen | spin.c:133 | defines the velocity after gravity: `vel + gravity * dt` |
| Motion.Probe | spin.c:132-138 | the ball tested against the rings is not bounced, carries the velocity after gravity, sits at the old position moved by that velocity over `dt`, and keeps its radius |
| Motion.FirstHit | spin.c:136-139 | finds the lowest-index ring that hits the probe, or reports that none does |
| Motion.StepBall | spin.c:131-150 | defines `update_ball` on values: with a first hit ring, the old position, the reflected velocity after gravity, the new colour and `bounced`; otherwise the probe |
| Motion.StepBounces | spin.c:131-150 | the ball bounces exactly when some ring hits it at the position a free move would reach; then, for the lowest such ring, it stays where it was and is repainted, and its velocity after gravity has its component along the line from that ring's centre to the old position reversed (a mirror image in the line orthogonal to it) |
| Motion.StepMovesFreely | spin.c:133-149 | with no ring hit, the ball moves by its velocity after gravity over `dt`, does not bounce and keeps its colour |
| Motion.StepKeepsBody | spin.c:131-150 | `update_ball` never changes radius, mass or spawn timer |
| Motion.BounceKeepsSpeed | spin.c:140-142 | a bounce keeps the speed the ball had after gravity and, when the hit ring's centre is not the old position, reverses the velocity's component along the line from that centre to the ball |
| Motion.BounceMatchesSource | spin.c:140-142 | normalising the vector to the ball twice, once in `update_ball` and once in `vector2reflect`, still gives the reflection about that vector |
| Motion.UpdateBall | spin.c:131-150 | in place, ball `k` becomes its `StepBall` and no other ball changes |
| Motion.Spin | spin.c:89-92 | spinning advances `start` by `vel * dt` and keeps the arc length `end - start`, so `end` advances by the same amount; both radii, the centre and the angular velocity are kept |
| Motion.SpinAdds | spin.c:89-92 | spinning for `a` then for `b` seconds is spinning for `a + b`; spinning for no time changes nothing |
| Motion.SpinWholeTurns | spin.c:89-110 | a spin by whole turns leaves every hit test as it was |
| Motion.SpinRing | spin.c:89-92 | in place, ring `k` becomes its `Spin` and no other ring changes |
| RingList.GenerateRings | spin.c:112-123 | a fresh array of `n` rings in which ring `i` is `RingAt(i)` |
| RingList.LayoutAscending | spin.c:112-123 | the generated rings are ordered from the inside out |
| RingList.SuffixAscending | spin.c:152-157 | dropping rings from the front keeps that order |
| RingList.RemoveRing | spin.c:152-157 | the count drops by one and the new array holds the old rings without the first, in order |
| Spawning.Escaped | spin.c:198 | defines the escape test: the ball's distance from the window centre exceeds the ring's inner radius minus the ball's radius |
| Spawning.Triggers | spin.c:196-215 | defines what the inner `while` finds: some ring the ball has escaped |
| Spawning.EscapedExact | spin.c:198 | the square-free escape test agrees with `distance(pos, center) > inner_r - radius` |
| Spawning.TriggersOnFirst | spin.c:197-214 | with rings ordered from the inside out, the inner loop finds an escaped ring exactly when ring 0, the one removed, is escaped |
| Spawning.Clone | spin.c:202-205 | the clone is the ball before growth, with the spawn timer at 1 and the position displaced by the two draws |
| Spawning.Grown | spin.c:209-210 | defines the spawning ball afterwards: radius times 1.2 and velocity times 1.1 |
| Spawning.GrownChanges | spin.c:209-210 | the spawning ball grows by 1.2 in radius and 1.1 in velocity, and nothing else changes |
| Spawning.GrowthEnlarges | spin.c:209-210 | a ball of positive radius grows strictly, and a moving ball gets strictly faster |
| Spawning.SpawnAt | spin.c:199-210 | one spawn appends the clone, grows ball `j`, and leaves every other ball as it was |
| Spawning.SweepFrom | spin.c:195-216 | defines the sweep from ball `j`: a triggering ball spawns once (the clone appended, ring 0 dropped) and the sweep moves on to `j + 1` over the grown array; otherwise it moves on unchanged |
| Spawning.AddBalls | spin.c:194-217 | defines `add_ball` on values: the sweep from ball 0 with no spawns yet |
| Spawning.SweepConserves | spin.c:194-217 | the sweep keeps `balls_n + rings_n`; the rings left are the old ones minus as many from the front as there were spawns; balls only grow in number |
| Spawning.SweepTouchesOnce | spin.c:195-211 | balls already passed are left alone, and each ball still to come is either untouched or grown once |
| Spawning.SweepClonesImmune | spin.c:202-207 | every ball the sweep appends carries the one-second spawn timer, even a clone that spawns in turn later in the sweep |
| Spawning.SweepKeepsMass | spin.c:202-210 | no spawn changes a mass, so balls all of one mass stay of one mass |
| Spawning.SweepWithoutRings | spin.c:197 | with no rings left, the sweep changes nothing |
| Spawning.SweepKeepsOrder | spin.c:152-157 | the rings left after the sweep stay ordered from the inside out |
| Impacts.Kick | spin.c:172-183 | defines one half of `elastic_collision`: `v` less `dp` times the mass share times `(dv . dp) / dist_squared` |
| Impacts.Elastic | spin.c:160-184 | `elastic_collision` changes only the two velocities |
| Impacts.ElasticKicks | spin.c:168-183 | both new velocities are the old ones moved along `x1 - x2`, by the two factors of the source |
| Impacts.ElasticIsExchange | spin.c:168-183 | the factors split twice the relative velocity's component along `x1 - x2` between the balls in inverse proportion to their masses |
| Impacts.KickReversed | spin.c:178-183 | the second ball's update, computed on the reversed differences, is a push along `x1 - x2` |
| Impacts.ExchangeMomentum | spin.c:174-183 | an exchange with mass-balanced factors conserves `m1*v1 + m2*v2` |
| Impacts.ExchangeReverses | spin.c:174-183 | such an exchange reverses the relative velocity's component along the line of centres |
| Impacts.ExchangeEnergy | spin.c:174-183 | such an exchange conserves `m1*|v1|^2 + m2*|v2|^2` |
| Impacts.ElasticMomentum | spin.c:160-184 | for distinct positions and a nonzero mass sum, the total momentum is conserved |
| Impacts.ElasticReverses | spin.c:160-184 | the relative velocity along the line of centres is reversed |
| Impacts.ElasticEnergy | spin.c:160-184 | kinetic energy is conserved |
| Impacts.Cooled | spin.c:188-190 | defines `decrease_cooldown` on one ball: a timer above zero drops by `dt`, any other is left alone |
| Impacts.CooledOnlyTimer | spin.c:187-191 | the countdown changes only the spawn timer, which never rises for `dt >= 0` |
| Impacts.EligibleStays | spin.c:188 | a ball whose timer is at or below zero is left unchanged by any number of countdowns |
| Impacts.CooldownExpires | spin.c:186-192 | after frames adding up to at least the timer, the ball is eligible for collisions |
| Impacts.DecreaseCooldown | spin.c:186-192 | in place, each of the first `balls_n` balls is cooled and the rest of the array is unchanged |
| Impacts.Meets | spin.c:222-223 | defines the gate: both timers at or below zero and `CheckCollisionCircles` true |
| Impacts.SameBodiesResolvable | spin.c:222-223 | the gate and the no-division-by-zero condition read no velocity, so a pass keeps them |
| Impacts.Collide | spin.c:222-224 | one step of the inner loop changes only velocities, and only those of balls `i` and `j` |
| Impacts.PassFrom | spin.c:220-227 | defines the pass from the pair `i`, `j` on, in the loop order: `j` runs past `i` to the end, then `i` moves on |
| Impacts.CollideAll | spin.c:219-228 | defines `handle_ball_collisions` on values: the pass from the pair 0, 1 |
| Impacts.PassKeepsBodies | spin.c:219-228 | the whole pass changes velocities only, and never that of a ball whose spawn timer is still running |
| Impacts.MomentumUpdate | spin.c:224 | replacing one ball changes the total momentum by the difference of the two impulses |
| Impacts.CollideMomentum | spin.c:222-224 | each step of the pass conserves total momentum |
| Impacts.PassMomentum | spin.c:219-228 | the whole pass conserves the total momentum of the balls |
| Impacts.HandleBallCollisions | spin.c:219-228 | in place, the first `balls_n` balls become the pass `CollideAll` of the old ones and the rest of the array is unchanged |
| Game.CoolAll | spin.c:186-192 | each ball of the sequence is cooled |
| Game.MoveBalls | spin.c:251-254 | every ball becomes its `StepBall` against the same rings |
| Game.SpinRings | spin.c:256-259 | every ring becomes its `Spin` |
| Game.AppendClone | spin.c:199-207 | the reallocated array is the old balls followed by the clone of ball `j` |
| Game.World.constructor | spin.c:233-239 | nine generated rings, ordered from the inside out, and the single starting ball |
| Game.World.Spawn | spin.c:198-211 | one spawn in place: the balls become `SpawnAt`, the rings lose the first, and the order of the rings is kept |
| Game.World.AddBall | spin.c:194-217 | in place, the arrays become the result of the sweep `AddBalls`; `balls_n + rings_n` is kept and the rings stay ordered |
| Game.World.CoolAndCollide | spin.c:246-248 | the balls become the collision pass applied to the cooled balls |
| Game.World.Frame | spin.c:246-259 | one frame in `main`'s order (countdown, collisions, spawning, moving every ball, spinning every ring); the new state is described by `CoolAll`, `CollideAll`, `AddBalls`, `StepBall` and `Spin`, `balls_n + rings_n` is kept and the rings stay ordered |

## Left out

- Drawing and the window: `InitWindow`, `ClearBackground`, `BeginDrawing`, `EndDrawing`, `draw_ring`, `draw_ball` and `CloseWindow` are raylib I/O. The loop `while (!WindowShouldClose())` is modelled as one call of `Game.World.Frame` per iteration.
- `GetFrameTime`: the frame time is the parameter `dt`.
- Floating point: `float` arithmetic is real arithmetic, so rounding, overflow, NaN and exact float equalities are not reproduced. Conservation of momentum and energy holds over the reals only.
- `sqrtf`, `atan2f` and `fmodf`:
  - Lengths are compared on squares.
  - `atan2f` in degrees is the parameter `atan2Deg`.
  - `fmodf(x, 360)` is defined by truncating division, the definition C uses; its exact float values are not modelled.
- `GetRandomValue`: the draws are parameters restricted to the source's ranges (`Shade` for 0..255, `Jitter` for -10..10). The random number generator itself is not modelled.
- `CheckCollisionCircles` comes from raylib and is the parameter `touching`.
- `malloc`, `realloc` and `free`:
  - Allocation never fails in the model, and null checks are absent.
  - `realloc` to size 0 after the last ring is removed is a fresh empty array.
  - The final `free(rings_arr)` is not modelled, and neither is the ball array that `main` never frees.
- `vector2mul` is never called by the program and is not modelled.
- `Impacts.Elastic`: requires distinct positions and a nonzero mass sum. In C those cases divide by zero. `Impacts.HandleBallCollisions` and `Game.World.Frame` therefore require every pair that passes the gate to meet this (`Resolvable`).
- `SPEED_LIMIT` and `SUBTICK` are never used by the program and are not modelled.
- `main`'s local `center` and `ball_color` are folded into `Entities.Center` and `Entities.InitialBall`.
