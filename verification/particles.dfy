/** A single moving point: explicit Euler integration, plus a lifespan that
    only sparks lose and a drag that only sparks feel. */
module Particles {
  import opened Vectors

  /** An RGB colour; the rendering that consumes it is not modelled. */
  datatype Color = Rgb(red: real, green: real, blue: real)

  /** Every particle is born with this lifespan. */
  const MaxLifespan: int := 255
  /** Lifespan lost by a spark on each update. */
  const SparkDecay: int := 5
  /** Velocity factor applied to a spark after each position step. */
  const Drag: real := 0.98

  const RocketColor: Color := Rgb(255.0, 100.0, 0.0)
  const RocketSize: real := 5.0

  /** `isFirework` distinguishes the rocket of a firework from its sparks. */
  datatype Particle = Particle(
    pos: Vec2,
    vel: Vec2,
    acc: Vec2,
    lifespan: int,
    isFirework: bool,
    color: Color,
    size: real)

  /** A colour drawn with `random(255)` on each channel. */
  predicate RandomColor(c: Color) {
    && 0.0 <= c.red <= 255.0
    && 0.0 <= c.green <= 255.0
    && 0.0 <= c.blue <= 255.0
  }

  /** The launch velocity of a rocket: `random(-1, 1)` across and `random(-10, -15)` upward. */
  predicate RocketVelocity(v: Vec2) {
    -1.0 <= v.x <= 1.0 && -15.0 <= v.y <= -10.0
  }

  /** The random draws that make one spark: its initial velocity and its point size.
      The velocity is a random speed in `[1,6]` in a random direction, so its squared
      length lies in `[1,36]`. */
  datatype SparkSeed = SparkSeed(vel: Vec2, size: real)

  predicate ValidSeed(s: SparkSeed) {
    && 2.0 <= s.size <= 4.0
    && 1.0 <= s.vel.x * s.vel.x + s.vel.y * s.vel.y <= 36.0
  }

  /** The constructor with `isFirework` true. */
  function NewRocket(x: real, y: real, vel: Vec2): (p: Particle)
    requires RocketVelocity(vel)
    ensures p.isFirework && p.pos == Vec2(x, y) && p.acc == Zero
    ensures p.lifespan == MaxLifespan && p.vel == vel && p.vel.y <= -10.0
  {
    Particle(Vec2(x, y), vel, Zero, MaxLifespan, true, RocketColor, RocketSize)
  }

  /** The constructor with `isFirework` false. */
  function NewSpark(pos: Vec2, seed: SparkSeed, c: Color): (p: Particle)
    requires ValidSeed(seed)
    ensures !p.isFirework && p.pos == pos && p.acc == Zero && p.color == c
    ensures p.lifespan == MaxLifespan && p.vel == seed.vel
    ensures 1.0 <= p.vel.x * p.vel.x + p.vel.y * p.vel.y <= 36.0
  {
    Particle(pos, seed.vel, Zero, MaxLifespan, false, c, seed.size)
  }

  /** Accumulates a force into the acceleration and touches nothing else. */
  function ApplyForce(p: Particle, f: Vec2): (r: Particle)
    ensures r.acc == Vec2(p.acc.x + f.x, p.acc.y + f.y)
    ensures r.pos == p.pos && r.vel == p.vel && r.lifespan == p.lifespan
    ensures r.isFirework == p.isFirework && r.color == p.color && r.size == p.size
  {
    p.(acc := Vec2(p.acc.x + f.x, p.acc.y + f.y))
  }

  /** One integration step. The position advances by the velocity AFTER the
      acceleration is added and BEFORE a spark's drag is applied; the acceleration
      is then cleared. Only a spark loses lifespan and is slowed down. */
  function Update(p: Particle): (r: Particle)
    ensures r.acc == Zero
    ensures r.pos == Vec2(p.pos.x + (p.vel.x + p.acc.x), p.pos.y + (p.vel.y + p.acc.y))
    ensures r.isFirework == p.isFirework && r.color == p.color && r.size == p.size
    ensures p.isFirework ==> r.vel == Vec2(p.vel.x + p.acc.x, p.vel.y + p.acc.y) && r.lifespan == p.lifespan
    ensures !p.isFirework ==>
      r.vel == Vec2((p.vel.x + p.acc.x) * Drag, (p.vel.y + p.acc.y) * Drag) && r.lifespan == p.lifespan - SparkDecay
  {
    var vel := Vec2(p.vel.x + p.acc.x, p.vel.y + p.acc.y);
    var pos := Vec2(p.pos.x + vel.x, p.pos.y + vel.y);
    if p.isFirework then
      p.(pos := pos, vel := vel, acc := Zero)
    else
      p.(pos := pos, vel := Vec2(vel.x * Drag, vel.y * Drag), acc := Zero, lifespan := p.lifespan - SparkDecay)
  }

  /** `n` updates of a particle with no force applied between them. */
  function Age(p: Particle, n: nat): Particle
    decreases n
  {
    if n == 0 then p else Age(Update(p), n - 1)
  }

  /** A spark loses exactly `SparkDecay` per update; a rocket never loses lifespan. */
  lemma {:induction false} AgeLifespan(p: Particle, n: nat)
    ensures Age(p, n).isFirework == p.isFirework
    ensures p.isFirework ==> Age(p, n).lifespan == p.lifespan
    ensures !p.isFirework ==> Age(p, n).lifespan == p.lifespan - SparkDecay * n
    decreases n
  {
    if n > 0 {
      AgeLifespan(Update(p), n - 1);
    }
  }

  /** Two forces applied in one frame act as their sum, in either order. */
  lemma ForcesAccumulate(p: Particle, f: Vec2, g: Vec2)
    ensures ApplyForce(ApplyForce(p, f), g) == ApplyForce(p, Vec2(f.x + g.x, f.y + g.y))
    ensures ApplyForce(ApplyForce(p, f), g) == ApplyForce(ApplyForce(p, g), f)
  {
  }
}
