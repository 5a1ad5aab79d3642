/**
 The records of the simulation (`Ring` and `Ball`), the constants it is
 built from, and the state `main` starts from: nine rings laid out by
 `generate_rings` and one ball at the centre of the window.
 */
module Entities {
  import opened Vector2

  /** One colour channel, as in raylib's `unsigned char` fields. */
  type Byte = x: int | 0 <= x < 256

  datatype Color = Color(r: Byte, g: Byte, b: Byte, a: Byte)

  /**
   An open ring: an arc from `start` to `end` degrees, drawn between the
   radii `innerR` and `outerR` around `center`, turning at `vel` degrees
   per second. With the radii `generate_rings` uses, `innerR` is the
   larger of the two.
   */
  datatype Ring = Ring(start: real, end: real, innerR: real, outerR: real, center: Vec, vel: real)

  datatype Ball = Ball(pos: Vec, vel: Vec, radius: real, mass: real, color: Color,
                       bounced: bool, spawnCooldown: real)

  /** Three draws of `GetRandomValue(0, 255)`, one per colour channel. */
  datatype Shade = Shade(r: Byte, g: Byte, b: Byte)

  /** A draw of `GetRandomValue(-10, 10)`. */
  type Jitter = x: int | -10 <= x <= 10

  /** The two draws that displace a freshly spawned ball. */
  datatype Offset = Offset(dx: Jitter, dy: Jitter)

  const Size: real := 800.0
  const Gravity: Vec := Vec(0.0, 150.0)
  const Center: Vec := Vec(Size / 2.0, Size / 2.0)

  const StartAngle: real := 0.0
  const EndAngle: real := 330.0
  const FirstInnerRadius: real := 70.0
  const FirstOuterRadius: real := 65.0
  const RadiusStep: real := 40.0
  const BaseSpin: real := 10.0

  const RingCount: nat := 9
  const GrowthFactor: real := 1.2
  const SpeedBoost: real := 1.1
  const SpawnImmunity: real := 1.0

  /** The `i`-th ring `generate_rings` lays out. */
  function RingAt(i: nat): (r: Ring)
    ensures r.innerR - r.outerR == FirstInnerRadius - FirstOuterRadius
    ensures r.start == StartAngle && r.end == EndAngle && r.center == Center
  {
    Ring(StartAngle, EndAngle, FirstInnerRadius + RadiusStep * i as real,
         FirstOuterRadius + RadiusStep * i as real, Center, BaseSpin * (i + 1) as real)
  }

  /** Rings further out are larger and spin faster. */
  lemma {:induction false} RingsNest(i: nat, k: nat)
    requires i < k
    ensures RingAt(i).innerR < RingAt(k).innerR && RingAt(i).outerR < RingAt(k).outerR
    ensures RingAt(i).vel < RingAt(k).vel
    ensures RingAt(i).innerR + RadiusStep <= RingAt(k).innerR
  {
  }

  /** The ball `main` places before the first frame. */
  function InitialBall(): Ball {
    Ball(Center, Vec(10.0, 10.0), 8.0, 10.0, Color(0, 10, 20, 255), false, 1.0)
  }

  /** `update_color`: new red, green and blue channels; the alpha channel is kept. */
  function Paint(c: Color, s: Shade): (r: Color)
    ensures r.a == c.a
    ensures r.r == s.r && r.g == s.g && r.b == s.b
  {
    c.(r := s.r, g := s.g, b := s.b)
  }

  /** The two balls agree on everything except, possibly, their velocity. */
  predicate SameExceptVel(a: Ball, b: Ball) {
    a.pos == b.pos && a.radius == b.radius && a.mass == b.mass && a.color == b.color
    && a.bounced == b.bounced && a.spawnCooldown == b.spawnCooldown
  }
}
