/** The character's collision circle and the movement validator (src/characters/collider.rs). */
module CharacterCollider {
  import opened Wrappers
  import opened Geometry
  import opened CollisionMaps
  import opened CharacterPhysics
  import GameConfig

  datatype Collider = Collider(radius: real, offset: Vec2)

  /** `Collider::default`: the configured radius, centred on the body. */
  const DEFAULT_COLLIDER: Collider := Collider(GameConfig.COLLIDER_RADIUS, ZERO2)

  lemma DefaultCollider()
    ensures DEFAULT_COLLIDER.radius == 16.0 && DEFAULT_COLLIDER.offset == ZERO2
  {
  }

  /** `world_position`: the circle's centre for a body at `translation`. */
  function WorldPosition(c: Collider, translation: Vec3): (p: Vec2)
    ensures Sub(p, Xy(translation)) == c.offset
  {
    Add(Xy(translation), c.offset)
  }

  /** The circle moves with its body: shifting the translation shifts the centre by the same amount. */
  lemma WorldPositionFollows(c: Collider, t: Vec3, d: Vec2)
    ensures WorldPosition(c, Vec3(t.x + d.x, t.y + d.y, t.z)) == Add(WorldPosition(c, t), d)
  {
  }

  /**
   * One body's velocity after `validate_movement`: the circle is swept from
   * its centre towards where the velocity would take it this frame; if the
   * sweep ends more than sqrt(0.001) short and `dt` is positive, the velocity
   * becomes the motion actually achieved per second.
   */
  ghost function Validated(m: CollisionMap, dt: real, t: Vec3, v: Vec2, c: Collider, length: Vec2 -> real): (r: Vec2)
    reads m
    requires m.Valid() && IsLength(length)
    ensures !IsMoving(v) || dt <= 0.0 ==> r == v
  {
    if !IsMoving(v) then v
    else
      var current := WorldPosition(c, t);
      var delta := Scale(v, dt);
      var desired := Add(current, delta);
      var reached := m.Swept(current, desired, c.radius, length(Sub(desired, current)));
      var actual := Sub(reached, current);
      if LengthSquared(Sub(actual, delta)) > 0.001 && dt > 0.0 then DivBy(actual, dt) else v
  }

  /**
   * A rewritten velocity takes the body, in one frame, exactly to where the
   * sweep stopped, which is its start or a clear position; a kept velocity of
   * a moving body means the sweep got within sqrt(0.001) of the target (or `dt` is not positive).
   */
  lemma ValidatedLandsOnSweep(m: CollisionMap, dt: real, t: Vec3, v: Vec2, c: Collider, length: Vec2 -> real)
    requires m.Valid() && IsLength(length) && IsMoving(v)
    ensures var current := WorldPosition(c, t);
            var desired := Add(current, Scale(v, dt));
            var reached := m.Swept(current, desired, c.radius, length(Sub(desired, current)));
            var r := Validated(m, dt, t, v, c, length);
            (reached == current || m.CircleClear(reached, c.radius)) &&
            (r != v ==> dt > 0.0 && Add(current, Scale(r, dt)) == reached) &&
            (r == v ==> dt <= 0.0 || DistanceSquared(reached, desired) <= 0.001)
  {
    var current := WorldPosition(c, t);
    var delta := Scale(v, dt);
    var desired := Add(current, delta);
    var reached := m.Swept(current, desired, c.radius, length(Sub(desired, current)));
    m.SweptClear(current, desired, c.radius, length(Sub(desired, current)));
    assert Sub(Sub(reached, current), delta) == Sub(reached, desired);
    if dt > 0.0 {
      AverageVelocityCovers(current, reached, dt);
    }
  }

  /**
   * `validate_movement`: with no collision map nothing changes; otherwise
   * every moving body's velocity is checked against the map.
   */
  method ValidateMovement(collisionMap: Option<CollisionMap>, dt: real, translations: seq<Vec3>, velocities: array<Vec2>,
                          colliders: seq<Collider>, length: Vec2 -> real)
    requires IsLength(length)
    requires collisionMap.Some? ==> collisionMap.value.Valid()
    requires |translations| == velocities.Length == |colliders|
    modifies velocities
    ensures collisionMap.None? ==> velocities[..] == old(velocities[..])
    ensures collisionMap.Some? ==> forall i | 0 <= i < velocities.Length ::
              velocities[i] == Validated(collisionMap.value, dt, translations[i], old(velocities[i]), colliders[i], length)
  {
    if collisionMap.None? {
      return;
    }
    var m := collisionMap.value;
    var i := 0;
    while i < velocities.Length
      invariant 0 <= i <= velocities.Length
      invariant forall j | 0 <= j < i :: velocities[j] == Validated(m, dt, translations[j], old(velocities[j]), colliders[j], length)
      invariant forall j | i <= j < velocities.Length :: velocities[j] == old(velocities[j])
    {
      velocities[i] := ValidateOne(m, dt, translations[i], velocities[i], colliders[i], length);
      i := i + 1;
    }
  }

  /** The loop body of `validate_movement` for one body. */
  method ValidateOne(m: CollisionMap, dt: real, t: Vec3, v: Vec2, c: Collider, length: Vec2 -> real) returns (r: Vec2)
    requires m.Valid() && IsLength(length)
    ensures r == Validated(m, dt, t, v, c, length)
  {
    r := v;
    if IsMoving(v) {
      var current := WorldPosition(c, t);
      var delta := Scale(v, dt);
      var desired := Add(current, delta);
      var reached := m.SweepCircle(current, desired, c.radius, length(Sub(desired, current)));
      var actual := Sub(reached, current);
      if LengthSquared(Sub(actual, delta)) > 0.001 {
        if dt > 0.0 {
          r := DivBy(actual, dt);
        }
      }
    }
  }
}
