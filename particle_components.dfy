/**
 * Particle and emitter components (src/particles/components.rs): a particle
 * fades from its start to its end scale over its lifetime; an emitter is a
 * spawn schedule with three flags.
 */
module ParticleComponents {
  import opened Geometry

  /** A colour, as its four channels; colour spaces and mixing are not modelled. */
  datatype Color = Color(red: real, green: real, blue: real, alpha: real)

  const WHITE: Color := Color(1.0, 1.0, 1.0, 1.0)

  datatype Particle = Particle(
    velocity: Vec3, lifetime: real, maxLifetime: real, scale: real, angularVelocity: real,
    acceleration: Vec3, startColor: Color, midColor: Color, endColor: Color,
    startScale: real, endScale: real)

  const ZERO3: Vec3 := Vec3(0.0, 0.0, 0.0)

  /** `Particle::new`: full lifetime ahead, one colour, shrinking to half its scale, no spin or acceleration. */
  function NewParticle(velocity: Vec3, lifetime: real, scale: real, startColor: Color): (p: Particle)
    ensures p.velocity == velocity && p.lifetime == lifetime && p.maxLifetime == lifetime && p.scale == scale
    ensures p.midColor == startColor && p.endColor == startColor && p.startColor == startColor
    ensures p.startScale == scale && p.endScale == scale * 0.5
    ensures p.angularVelocity == 0.0 && p.acceleration == ZERO3
  {
    Particle(velocity, lifetime, lifetime, scale, 0.0, ZERO3, startColor, startColor, startColor, scale, scale * 0.5)
  }

  /** `with_angular_velocity`. */
  function WithAngularVelocity(p: Particle, angularVelocity: real): Particle {
    p.(angularVelocity := angularVelocity)
  }

  /** `with_acceleration`. */
  function WithAcceleration(p: Particle, acceleration: Vec3): Particle {
    p.(acceleration := acceleration)
  }

  /** `with_color_curve`. */
  function WithColorCurve(p: Particle, midColor: Color, endColor: Color): Particle {
    p.(midColor := midColor, endColor := endColor)
  }

  /** `with_scale_curve`. */
  function WithScaleCurve(p: Particle, endScale: real): Particle {
    p.(endScale := endScale)
  }

  /**
   * The builders touch disjoint fields: applied in any order they give the
   * same particle, and none of them changes the lifetime, the velocity or the
   * start of the scale and colour curves.
   */
  lemma BuildersIndependent(p: Particle, w: real, a: Vec3, mid: Color, end: Color, e: real)
    ensures WithAcceleration(WithAngularVelocity(p, w), a) == WithAngularVelocity(WithAcceleration(p, a), w)
    ensures WithScaleCurve(WithColorCurve(p, mid, end), e) == WithColorCurve(WithScaleCurve(p, e), mid, end)
    ensures var q := WithScaleCurve(WithColorCurve(WithAcceleration(WithAngularVelocity(p, w), a), mid, end), e);
            q.velocity == p.velocity && q.lifetime == p.lifetime && q.maxLifetime == p.maxLifetime &&
            q.scale == p.scale && q.startScale == p.startScale && q.startColor == p.startColor &&
            q.angularVelocity == w && q.acceleration == a && q.midColor == mid && q.endColor == end && q.endScale == e
  {
  }

  /** `progress`: the fraction of the lifetime used up. */
  function Progress(p: Particle): real
    requires p.maxLifetime != 0.0
  {
    1.0 - p.lifetime / p.maxLifetime
  }

  /** `f32::lerp`: `start + (end - start) * t`. */
  function Lerp(start: real, end: real, t: real): (r: real)
    ensures t == 0.0 ==> r == start
    ensures t == 1.0 ==> r == end
  {
    start + (end - start) * t
  }

  /** `current_scale`: the scale curve at the particle's progress. */
  function CurrentScale(p: Particle): real
    requires p.maxLifetime != 0.0
  {
    Lerp(p.startScale, p.endScale, Progress(p))
  }

  /**
   * A particle may only be asked for its scale while alive; a particle with
   * no positive lifetime is despawned before that, so only a live particle
   * needs a positive maximum.
   */
  predicate Alive(p: Particle) {
    p.lifetime > 0.0
  }

  predicate Wellformed(p: Particle) {
    Alive(p) ==> 0.0 < p.lifetime <= p.maxLifetime
  }

  /** A new particle is well formed, and the builders keep it so. */
  lemma NewParticleWellformed(velocity: Vec3, lifetime: real, scale: real, c: Color, w: real, a: Vec3,
                              mid: Color, end: Color, e: real)
    ensures Wellformed(NewParticle(velocity, lifetime, scale, c))
    ensures var q := WithScaleCurve(WithColorCurve(WithAcceleration(
                       WithAngularVelocity(NewParticle(velocity, lifetime, scale, c), w), a), mid, end), e);
            Wellformed(q) && (Alive(q) ==> q.maxLifetime == lifetime)
  {
  }

  /** A fresh particle has made no progress, so its scale is its start scale, whatever the builders did. */
  lemma NewParticleAtStart(velocity: Vec3, lifetime: real, scale: real, c: Color, w: real, a: Vec3,
                           mid: Color, end: Color, e: real)
    requires lifetime != 0.0
    ensures var q := WithScaleCurve(WithColorCurve(WithAcceleration(
                       WithAngularVelocity(NewParticle(velocity, lifetime, scale, c), w), a), mid, end), e);
            Progress(q) == 0.0 && CurrentScale(q) == scale
  {
    DivSelf(lifetime);
  }

  lemma DivSelf(a: real)
    requires a != 0.0
    ensures a / a == 1.0
  {
  }

  /** While alive, a well-formed particle's progress lies in [0, 1), and its scale between the curve's ends. */
  lemma ProgressBounds(p: Particle)
    requires Wellformed(p) && Alive(p)
    ensures 0.0 <= Progress(p) < 1.0
    ensures p.startScale <= p.endScale ==> p.startScale <= CurrentScale(p) <= p.endScale
    ensures p.endScale <= p.startScale ==> p.endScale <= CurrentScale(p) <= p.startScale
  {
    DivLeOfMul(p.lifetime, 1.0, p.maxLifetime);
    assert p.lifetime / p.maxLifetime > 0.0;
    LerpBetween(p.startScale, p.endScale, Progress(p));
  }

  /** Between its ends for a parameter in [0, 1]. */
  lemma LerpBetween(start: real, end: real, t: real)
    requires 0.0 <= t <= 1.0
    ensures start <= end ==> start <= Lerp(start, end, t) <= end
    ensures end <= start ==> end <= Lerp(start, end, t) <= start
  {
    var d := end - start;
    if d > 0.0 {
      MulNonNeg(d, t);
      MulLe(t, 1.0, d);
      assert d * t == t * d;
      assert 0.0 <= d * t <= d;
      assert Lerp(start, end, t) == start + d * t;
    } else if d < 0.0 {
      MulNonNeg(-d, t);
      MulLe(t, 1.0, -d);
      assert (-d) * t == t * (-d) == -(d * t);
    }
  }

  /** The shape particles are emitted from. */
  datatype EmissionShape = Point | Circle(radius: real) | Cone(angle: real)

  /** `ParticleConfig`: the base values and variances a spawned particle is drawn from. */
  datatype ParticleConfig = ParticleConfig(
    lifetime: real, lifetimeVariance: real, speed: real, speedVariance: real,
    direction: Vec3, directionVariance: real, scale: real, scaleVariance: real,
    color: Color, angularVelocity: real, angularVelocityVariance: real,
    acceleration: Vec3, emissionShape: EmissionShape)

  /** `ParticleConfig::default`. */
  const DEFAULT_CONFIG: ParticleConfig :=
    ParticleConfig(1.0, 0.1, 100.0, 10.0, Vec3(1.0, 0.0, 0.0), 0.1, 1.0, 0.1, WHITE, 0.0, 0.0, ZERO3, Point)

  /**
   * `ParticleEmitter`: the repeating spawn timer is kept as its period only;
   * whether it fired in a frame is an input of `update_emitters`.
   */
  datatype ParticleEmitter = ParticleEmitter(
    spawnRate: real, particlesPerSpawn: nat, particleConfig: ParticleConfig,
    active: bool, oneShot: bool, hasSpawned: bool)

  /** `ParticleEmitter::new`: an active, repeating emitter that has not spawned yet. */
  function NewEmitter(spawnRate: real, particlesPerSpawn: nat, config: ParticleConfig): (e: ParticleEmitter)
    ensures e.active && !e.oneShot && !e.hasSpawned
    ensures e.spawnRate == spawnRate && e.particlesPerSpawn == particlesPerSpawn && e.particleConfig == config
  {
    ParticleEmitter(spawnRate, particlesPerSpawn, config, true, false, false)
  }

  /** `one_shot`. */
  function OneShot(e: ParticleEmitter): (r: ParticleEmitter) {
    e.(oneShot := true)
  }

  /** `one_shot` sets that flag and nothing else, and a second call changes nothing. */
  lemma OneShotOnlyFlag(e: ParticleEmitter)
    ensures OneShot(e).oneShot && OneShot(e).active == e.active && OneShot(e).hasSpawned == e.hasSpawned
    ensures OneShot(e).spawnRate == e.spawnRate && OneShot(e).particlesPerSpawn == e.particlesPerSpawn
    ensures OneShot(e).particleConfig == e.particleConfig
    ensures OneShot(OneShot(e)) == OneShot(e)
    ensures e.oneShot ==> OneShot(e) == e
  {
  }
}
