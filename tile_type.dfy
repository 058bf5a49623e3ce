/** Tile kinds and their collision behaviour (src/collision/tile_type.rs). */
module TileTypes {
  datatype TileType = Empty | Dirt | Grass | YellowGrass | Shore | Water | Tree | Rock

  /** `TileType::default()`. */
  const DEFAULT_TILE: TileType := Empty

  /** Water, trees and rocks block movement; every other kind can be walked on. */
  predicate IsWalkable(t: TileType) {
    !(t.Water? || t.Tree? || t.Rock?)
  }

  /**
   * How much a tile's collision circle is widened, in tiles: trees and rocks
   * let the player cut corners by a fifth of a tile.
   */
  function CollisionAdjustment(t: TileType): (adj: real)
    ensures -0.2 <= adj <= 0.0
    ensures adj != 0.0 ==> !IsWalkable(t)
    ensures adj == -0.2 <==> t == Tree || t == Rock
    ensures adj == 0.0 <==> !(t == Tree || t == Rock)
  {
    match t
    case Tree | Rock => -0.2
    case _ => 0.0
  }

  lemma WalkableKinds(t: TileType)
    ensures !IsWalkable(t) <==> t in {Water, Tree, Rock}
    ensures IsWalkable(t) <==> t in {Empty, Dirt, Grass, YellowGrass, Shore}
  {
  }

  lemma DefaultIsWalkable()
    ensures DEFAULT_TILE == Empty && IsWalkable(DEFAULT_TILE)
  {
  }

  /** The component that marks a spawned tile entity with its kind. */
  datatype TileMarker = TileMarker(tileType: TileType)

  function NewTileMarker(t: TileType): (m: TileMarker)
    ensures m.tileType == t
  {
    TileMarker(t)
  }
}
