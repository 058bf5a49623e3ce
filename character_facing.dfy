/** The facing component and its dominant-axis rule (src/characters/facing.rs). */
module CharacterFacing {
  import opened Geometry

  datatype Facing = Up | Left | Down | Right

  /** The derived default. */
  const DEFAULT_FACING: Facing := Down

  /**
   * `Facing::from_velocity`: horizontal only when the horizontal component is
   * strictly larger in magnitude; ties and the zero vector face vertically.
   */
  function FromVelocity(v: Vec2): (f: Facing)
    ensures (f == Left || f == Right) <==> Abs(v.x) > Abs(v.y)
    ensures v == ZERO2 ==> f == Down
  {
    if Abs(v.x) > Abs(v.y) then
      if v.x > 0.0 then Right else Left
    else
      if v.y > 0.0 then Up else Down
  }

  /** The screen direction a facing points to (y grows upwards). */
  function Unit(f: Facing): Vec2 {
    match f
    case Up => Vec2(0.0, 1.0)
    case Left => Vec2(-1.0, 0.0)
    case Down => Vec2(0.0, -1.0)
    case Right => Vec2(1.0, 0.0)
  }

  /** How far `v` reaches in the direction of `f` (the dot product with `Unit(f)`). */
  function Along(f: Facing, v: Vec2): real {
    match f
    case Up => v.y
    case Left => -v.x
    case Down => -v.y
    case Right => v.x
  }

  /** The chosen facing is one of the four directions best aligned with `v`. */
  lemma FromVelocityBestAligned(v: Vec2, g: Facing)
    ensures Along(FromVelocity(v), v) >= Along(g, v)
    ensures Along(FromVelocity(v), v) == if Abs(v.x) > Abs(v.y) then Abs(v.x) else Abs(v.y)
  {
  }

  /** Each facing's own direction maps back to it. */
  lemma FromVelocityOfUnit(f: Facing)
    ensures FromVelocity(Unit(f)) == f
  {
  }

  /** `direction_index`: Up, Left, Down, Right are rows 0, 1, 2, 3. */
  function DirectionIndex(f: Facing): (i: nat)
    ensures i < 4
  {
    match f
    case Up => 0
    case Left => 1
    case Down => 2
    case Right => 3
  }

  /** The facing with a given direction index. */
  function FacingOfIndex(i: nat): (f: Facing)
    requires i < 4
    ensures DirectionIndex(f) == i
  {
    if i == 0 then Up else if i == 1 then Left else if i == 2 then Down else Right
  }

  /** `direction_index` is a bijection from the facings onto 0..3. */
  lemma DirectionIndexBijective(f: Facing, g: Facing)
    ensures FacingOfIndex(DirectionIndex(f)) == f
    ensures DirectionIndex(f) == DirectionIndex(g) ==> f == g
  {
  }
}
