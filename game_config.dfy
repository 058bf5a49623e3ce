/** The game's tuning constants (src/config.rs). */
module GameConfig {
  /** Radius of the player's collision circle. */
  const COLLIDER_RADIUS: real := 16.0
  const PLAYER_Z_POSITION: real := 20.0
  const PLAYER_SCALE: real := 0.8

  /** Side of one map tile in world units. */
  const TILE_SIZE: real := 32.0
  /** Number of tiles the generator lays out along x and y. */
  const GRID_X: nat := 25
  const GRID_Y: nat := 18
}
