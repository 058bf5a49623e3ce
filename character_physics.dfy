/** Velocity selection and integration (src/characters/physics.rs). */
module CharacterPhysics {
  import opened Geometry
  import opened CharacterStates
  import opened CharacterConfig

  /** `Velocity::is_moving`: the velocity is not the zero vector. */
  predicate IsMoving(v: Vec2) {
    v != ZERO2
  }

  /** A body is moving exactly when its speed is positive. */
  lemma IsMovingIffPositiveSpeed(v: Vec2)
    ensures IsMoving(v) <==> LengthSquared(v) > 0.0
  {
    LengthSquaredZero(v);
  }

  /**
   * `calculate_velocity`: no motion while idle or in the air, the unit
   * direction times the base speed while walking, and that times the run
   * multiplier while running. `len` is the direction's length.
   */
  function CalculateVelocity(state: CharacterState, direction: Vec2, c: CharacterEntry, len: real): (v: Vec2)
    requires IsLengthOf(len, direction)
    ensures (state == Idle || state == Jumping || direction == ZERO2) ==> v == ZERO2
  {
    ScaleZero(c.baseMoveSpeed);
    ScaleZero(c.runSpeedMultiplier);
    match state
    case Idle => ZERO2
    case Jumping => ZERO2
    case Walking => Scale(NormalizeOrZero(direction, len), c.baseMoveSpeed)
    case Running => Scale(Scale(NormalizeOrZero(direction, len), c.baseMoveSpeed), c.runSpeedMultiplier)
  }

  /** Walking moves at exactly the base speed. */
  lemma WalkingSpeed(direction: Vec2, c: CharacterEntry, len: real)
    requires IsLengthOf(len, direction) && direction != ZERO2
    ensures LengthSquared(CalculateVelocity(Walking, direction, c, len)) == Sq(c.baseMoveSpeed)
  {
    var n := NormalizeOrZero(direction, len);
    assert Sq(1.0) == 1.0;
    LengthSquaredScaleOf(n, c.baseMoveSpeed, 1.0);
    assert c.baseMoveSpeed * 1.0 == c.baseMoveSpeed;
  }

  /** With a non-negative base speed, walking moves along the input direction. */
  lemma WalkingAlongInput(direction: Vec2, c: CharacterEntry, len: real)
    requires IsLengthOf(len, direction) && direction != ZERO2 && c.baseMoveSpeed >= 0.0
    ensures exists k: real :: k >= 0.0 && CalculateVelocity(Walking, direction, c, len) == Scale(direction, k)
  {
    var n := NormalizeOrZero(direction, len);
    var k :| k > 0.0 && n == Scale(direction, k);
    MulNonNeg(k, c.baseMoveSpeed);
    ScaleScale(direction, k, c.baseMoveSpeed);
  }

  /** Running is walking sped up by the run multiplier. */
  lemma RunningScalesWalking(direction: Vec2, c: CharacterEntry, len: real)
    requires IsLengthOf(len, direction)
    ensures CalculateVelocity(Running, direction, c, len) ==
            Scale(CalculateVelocity(Walking, direction, c, len), c.runSpeedMultiplier)
  {
  }

  /** One body's translation after `apply_velocity`: x,y advance by `v * dt` when moving, z is kept. */
  function Applied(t: Vec3, v: Vec2, dt: real): (r: Vec3)
    ensures r.z == t.z
    ensures !IsMoving(v) ==> r == t
  {
    if IsMoving(v) then Vec3(t.x + v.x * dt, t.y + v.y * dt, t.z) else t
  }

  /** Two frames at one velocity move a body as far as one frame of the combined duration. */
  lemma AppliedAdditive(t: Vec3, v: Vec2, a: real, b: real)
    ensures Applied(Applied(t, v, a), v, b) == Applied(t, v, a + b)
  {
    if IsMoving(v) {
      assert v.x * a + v.x * b == v.x * (a + b);
      assert v.y * a + v.y * b == v.y * (a + b);
    }
  }

  /** `apply_velocity`: every queried body is integrated over the frame's `dt`. */
  method ApplyVelocity(dt: real, velocities: seq<Vec2>, translations: array<Vec3>)
    requires |velocities| == translations.Length
    modifies translations
    ensures forall i | 0 <= i < translations.Length :: translations[i] == Applied(old(translations[i]), velocities[i], dt)
  {
    var i := 0;
    while i < translations.Length
      invariant 0 <= i <= translations.Length
      invariant forall j | 0 <= j < i :: translations[j] == Applied(old(translations[j]), velocities[j], dt)
      invariant forall j | i <= j < translations.Length :: translations[j] == old(translations[j])
    {
      if IsMoving(velocities[i]) {
        var t := translations[i];
        translations[i] := Vec3(t.x + velocities[i].x * dt, t.y + velocities[i].y * dt, t.z);
      }
      i := i + 1;
    }
  }
}
