/**
 * The tile atlas of the map (src/map/tilemap.rs): the sprite table, the
 * lookup of a sprite by name and the pixel rectangle of a sprite.
 */
module Tilemap {
  import opened Wrappers

  /** An unsigned pixel vector (`UVec2`). */
  datatype UVec2 = UVec2(x: nat, y: nat)

  /** An unsigned pixel rectangle (`URect`), `min` inclusive and `max` exclusive. */
  datatype URect = URect(min: UVec2, max: UVec2)

  /** A named sprite and the pixel position of its top-left corner in the atlas. */
  datatype TilemapSprite = TilemapSprite(name: string, pixelX: nat, pixelY: nat)

  datatype TilemapDefinition = TilemapDefinition(tileWidth: nat, tileHeight: nat, atlasWidth: nat, atlasHeight: nat,
                                                 sprites: seq<TilemapSprite>)

  /** Number of entries of the sprite table. */
  const SPRITE_COUNT: nat := 61

  /** The sprite table, entry by entry. */
  function Sprite(i: nat): TilemapSprite
    requires i < SPRITE_COUNT
  {
    match i
    case 0 => TilemapSprite("dirt", 128, 0)
    case 1 => TilemapSprite("green_grass", 160, 0)
    case 2 => TilemapSprite("green_grass_corner_in_tl", 192, 0)
    case 3 => TilemapSprite("green_grass_corner_in_tr", 224, 0)
    case 4 => TilemapSprite("green_grass_corner_in_bl", 192, 32)
    case 5 => TilemapSprite("green_grass_corner_in_br", 224, 32)
    case 6 => TilemapSprite("green_grass_corner_out_tl", 0, 64)
    case 7 => TilemapSprite("green_grass_corner_out_tr", 32, 64)
    case 8 => TilemapSprite("green_grass_corner_out_bl", 0, 96)
    case 9 => TilemapSprite("green_grass_corner_out_br", 32, 96)
    case 10 => TilemapSprite("green_grass_side_t", 64, 64)
    case 11 => TilemapSprite("green_grass_side_r", 96, 64)
    case 12 => TilemapSprite("green_grass_side_l", 64, 96)
    case 13 => TilemapSprite("green_grass_side_b", 96, 96)
    case 14 => TilemapSprite("yellow_grass", 0, 256)
    case 15 => TilemapSprite("yellow_grass_corner_in_tl", 32, 256)
    case 16 => TilemapSprite("yellow_grass_corner_in_tr", 64, 256)
    case 17 => TilemapSprite("yellow_grass_corner_in_bl", 32, 288)
    case 18 => TilemapSprite("yellow_grass_corner_in_br", 64, 288)
    case 19 => TilemapSprite("yellow_grass_corner_out_tl", 96, 256)
    case 20 => TilemapSprite("yellow_grass_corner_out_tr", 128, 256)
    case 21 => TilemapSprite("yellow_grass_corner_out_bl", 96, 288)
    case 22 => TilemapSprite("yellow_grass_corner_out_br", 128, 288)
    case 23 => TilemapSprite("yellow_grass_side_t", 160, 256)
    case 24 => TilemapSprite("yellow_grass_side_r", 192, 256)
    case 25 => TilemapSprite("yellow_grass_side_l", 160, 288)
    case 26 => TilemapSprite("yellow_grass_side_b", 192, 288)
    case 27 => TilemapSprite("water", 32, 192)
    case 28 => TilemapSprite("water_corner_in_tl", 64, 192)
    case 29 => TilemapSprite("water_corner_in_tr", 96, 192)
    case 30 => TilemapSprite("water_corner_in_bl", 64, 224)
    case 31 => TilemapSprite("water_corner_in_br", 96, 224)
    case 32 => TilemapSprite("water_corner_out_tl", 128, 192)
    case 33 => TilemapSprite("water_corner_out_tr", 160, 192)
    case 34 => TilemapSprite("water_corner_out_bl", 128, 224)
    case 35 => TilemapSprite("water_corner_out_br", 160, 224)
    case 36 => TilemapSprite("water_side_t", 192, 192)
    case 37 => TilemapSprite("water_side_r", 224, 192)
    case 38 => TilemapSprite("water_side_l", 192, 224)
    case 39 => TilemapSprite("water_side_b", 224, 224)
    case 40 => TilemapSprite("big_tree_1_tl", 0, 0)
    case 41 => TilemapSprite("big_tree_1_tr", 32, 0)
    case 42 => TilemapSprite("big_tree_1_bl", 0, 32)
    case 43 => TilemapSprite("big_tree_1_br", 32, 32)
    case 44 => TilemapSprite("big_tree_2_tl", 64, 0)
    case 45 => TilemapSprite("big_tree_2_tr", 96, 0)
    case 46 => TilemapSprite("big_tree_2_bl", 64, 32)
    case 47 => TilemapSprite("big_tree_2_br", 96, 32)
    case 48 => TilemapSprite("plant_1", 128, 64)
    case 49 => TilemapSprite("plant_2", 160, 64)
    case 50 => TilemapSprite("plant_3", 192, 64)
    case 51 => TilemapSprite("plant_4", 224, 64)
    case 52 => TilemapSprite("rock_1", 0, 128)
    case 53 => TilemapSprite("rock_2", 32, 128)
    case 54 => TilemapSprite("rock_3", 64, 128)
    case 55 => TilemapSprite("rock_4", 96, 128)
    case 56 => TilemapSprite("small_tree_top", 128, 128)
    case 57 => TilemapSprite("small_tree_bottom", 128, 160)
    case 58 => TilemapSprite("tree_stump_1", 192, 128)
    case 59 => TilemapSprite("tree_stump_2", 224, 128)
    case _ => TilemapSprite("tree_stump_3", 0, 192)
  }

  /** `TILEMAP`: 32-pixel tiles in a 256 x 320 atlas. */
  const TILEMAP: TilemapDefinition :=
    TilemapDefinition(32, 32, 256, 320, seq(SPRITE_COUNT, i requires 0 <= i < SPRITE_COUNT => Sprite(i)))

  lemma TilemapSprites(i: nat)
    requires i < SPRITE_COUNT
    ensures |TILEMAP.sprites| == SPRITE_COUNT && TILEMAP.sprites[i] == Sprite(i)
  {
  }

  /** `tile_size`. */
  function TileSize(d: TilemapDefinition): (r: UVec2)
    ensures r.x == d.tileWidth && r.y == d.tileHeight
  {
    UVec2(d.tileWidth, d.tileHeight)
  }

  /** `atlas_size`. */
  function AtlasSize(d: TilemapDefinition): (r: UVec2)
    ensures r.x == d.atlasWidth && r.y == d.atlasHeight
  {
    UVec2(d.atlasWidth, d.atlasHeight)
  }

  /** The atlas is 8 tiles wide and 10 tiles high. */
  lemma TilemapSizes()
    ensures TileSize(TILEMAP) == UVec2(32, 32) && AtlasSize(TILEMAP) == UVec2(256, 320)
    ensures AtlasSize(TILEMAP).x == 8 * TileSize(TILEMAP).x && AtlasSize(TILEMAP).y == 10 * TileSize(TILEMAP).y
  {
  }

  /** The first index at or after `from` whose sprite is called `name`. */
  function PositionFrom(sprites: seq<TilemapSprite>, name: string, from: nat): Option<nat>
    decreases |sprites| - from
  {
    if from >= |sprites| then None
    else if sprites[from].name == name then Some(from)
    else PositionFrom(sprites, name, from + 1)
  }

  /** `sprite_index`: the position of the first sprite called `name`. */
  function SpriteIndex(d: TilemapDefinition, name: string): Option<nat> {
    PositionFrom(d.sprites, name, 0)
  }

  lemma {:induction false} PositionFromFirst(sprites: seq<TilemapSprite>, name: string, from: nat)
    ensures var r := PositionFrom(sprites, name, from);
            (r.Some? ==> from <= r.value < |sprites| && sprites[r.value].name == name &&
                         forall j | from <= j < r.value :: sprites[j].name != name) &&
            (r.None? <==> forall j | from <= j < |sprites| :: sprites[j].name != name)
    decreases |sprites| - from
  {
    if from < |sprites| && sprites[from].name != name {
      PositionFromFirst(sprites, name, from + 1);
    }
  }

  /**
   * `sprite_index` finds the first sprite of that name, and finds nothing
   * exactly when no sprite has it.
   */
  lemma SpriteIndexFirst(d: TilemapDefinition, name: string)
    ensures var r := SpriteIndex(d, name);
            (r.Some? ==> r.value < |d.sprites| && d.sprites[r.value].name == name &&
                         forall j | 0 <= j < r.value :: d.sprites[j].name != name) &&
            (r.None? <==> forall j | 0 <= j < |d.sprites| :: d.sprites[j].name != name)
  {
    PositionFromFirst(d.sprites, name, 0);
  }

  /** `URect::from_corners`: the rectangle spanned by two corners in any order. */
  function FromCorners(a: UVec2, b: UVec2): (r: URect)
    ensures r.min.x <= r.max.x && r.min.y <= r.max.y
    ensures (r.min.x == a.x && r.max.x == b.x) || (r.min.x == b.x && r.max.x == a.x)
    ensures (r.min.y == a.y && r.max.y == b.y) || (r.min.y == b.y && r.max.y == a.y)
  {
    URect(UVec2(if a.x <= b.x then a.x else b.x, if a.y <= b.y then a.y else b.y),
          UVec2(if a.x <= b.x then b.x else a.x, if a.y <= b.y then b.y else a.y))
  }

  /** `sprite_rect`: the tile-sized rectangle whose top-left corner is the sprite's pixel position. */
  function SpriteRect(d: TilemapDefinition, index: nat): (r: URect)
    requires index < |d.sprites|
    ensures r.min == UVec2(d.sprites[index].pixelX, d.sprites[index].pixelY)
    ensures r.max.x - r.min.x == d.tileWidth && r.max.y - r.min.y == d.tileHeight
  {
    var sprite := d.sprites[index];
    var min := UVec2(sprite.pixelX, sprite.pixelY);
    FromCorners(min, UVec2(min.x + TileSize(d).x, min.y + TileSize(d).y))
  }

  /** A sprite's cell is aligned to the 32-pixel tiles and lies inside the 256 x 320 atlas. */
  ghost predicate CellInAtlas(s: TilemapSprite) {
    s.pixelX % 32 == 0 && s.pixelX + 32 <= 256 && s.pixelY % 32 == 0 && s.pixelY + 32 <= 320
  }

  // The table checked sixteen entries at a time.

  lemma CellsInAtlas0To15()
    ensures forall i | 0 <= i < 16 :: CellInAtlas(Sprite(i))
  {
  }

  lemma CellsInAtlas16To31()
    ensures forall i | 16 <= i < 32 :: CellInAtlas(Sprite(i))
  {
  }

  lemma CellsInAtlas32To47()
    ensures forall i | 32 <= i < 48 :: CellInAtlas(Sprite(i))
  {
  }

  lemma CellsInAtlas48To60()
    ensures forall i | 48 <= i < 61 :: CellInAtlas(Sprite(i))
  {
  }

  /** Every entry is a whole tile of the atlas. */
  lemma CellsInAtlas(i: nat)
    requires i < SPRITE_COUNT
    ensures CellInAtlas(Sprite(i))
  {
    if i < 16 {
      CellsInAtlas0To15();
    } else if i < 32 {
      CellsInAtlas16To31();
    } else if i < 48 {
      CellsInAtlas32To47();
    } else if i < 61 {
      CellsInAtlas48To60();
    }
  }

  /** Two entries differ in name and cell. */
  ghost predicate Apart(s: TilemapSprite, t: TilemapSprite) {
    s.name != t.name && (s.pixelX, s.pixelY) != (t.pixelX, t.pixelY)
  }

  // The table checked in blocks of eight entries against blocks of eight.

  lemma Apart0And0()
    ensures forall i, j | 0 <= i < j < 8 :: Apart(Sprite(i), Sprite(j))
  {
  }

  lemma Apart0And1()
    ensures forall i, j | 0 <= i < 8 && 8 <= j < 16 :: Apart(Sprite(i), Sprite(j))
  {
  }

  lemma Apart0And2()
    ensures forall i, j | 0 <= i < 8 && 16 <= j < 24 :: Apart(Sprite(i), Sprite(j))
  {
  }

  lemma Apart0And3()
    ensures forall i, j | 0 <= i < 8 && 24 <= j < 32 :: Apart(Sprite(i), Sprite(j))
  {
  }

  lemma Apart0And4()
    ensures forall i, j | 0 <= i < 8 && 32 <= j < 40 :: Apart(Sprite(i), Sprite(j))
  {
  }

  lemma Apart0And5()
    ensures forall i, j | 0 <= i < 8 && 40 <= j < 48 :: Apart(Sprite(i), Sprite(j))
  {
  }

  lemma Apart0And6()
    ensures forall i, j | 0 <= i < 8 && 48 <= j < 56 :: Apart(Sprite(i), Sprite(j))
  {
  }

  lemma Apart0And7()
    ensures forall i, j | 0 <= i < 8 && 56 <= j < 61 :: Apart(Sprite(i), Sprite(j))
  {
  }

  lemma Apart1And1()
    ensures forall i, j | 8 <= i < j < 16 :: Apart(Sprite(i), Sprite(j))
  {
  }

  lemma Apart1And2()
    ensures forall i, j | 8 <= i < 16 && 16 <= j < 24 :: Apart(Sprite(i), Sprite(j))
  {
  }

  lemma Apart1And3()
    ensures forall i, j | 8 <= i < 16 && 24 <= j < 32 :: Apart(Sprite(i), Sprite(j))
  {
  }

  lemma Apart1And4()
    ensures forall i, j | 8 <= i < 16 && 32 <= j < 40 :: Apart(Sprite(i), Sprite(j))
  {
  }

  lemma Apart1And5()
    ensures forall i, j | 8 <= i < 16 && 40 <= j < 48 :: Apart(Sprite(i), Sprite(j))
  {
  }

  lemma Apart1And6()
    ensures forall i, j | 8 <= i < 16 && 48 <= j < 56 :: Apart(Sprite(i), Sprite(j))
  {
  }

  lemma Apart1And7()
    ensures forall i, j | 8 <= i < 16 && 56 <= j < 61 :: Apart(Sprite(i), Sprite(j))
  {
  }

  lemma Apart2And2()
    ensures forall i, j | 16 <= i < j < 24 :: Apart(Sprite(i), Sprite(j))
  {
  }

  lemma Apart2And3()
    ensures forall i, j | 16 <= i < 24 && 24 <= j < 32 :: Apart(Sprite(i), Sprite(j))
  {
  }

  lemma Apart2And4()
    ensures forall i, j | 16 <= i < 24 && 32 <= j < 40 :: Apart(Sprite(i), Sprite(j))
  {
  }

  lemma Apart2And5()
    ensures forall i, j | 16 <= i < 24 && 40 <= j < 48 :: Apart(Sprite(i), Sprite(j))
  {
  }

  lemma Apart2And6()
    ensures forall i, j | 16 <= i < 24 && 48 <= j < 56 :: Apart(Sprite(i), Sprite(j))
  {
  }

  lemma Apart2And7()
    ensures forall i, j | 16 <= i < 24 && 56 <= j < 61 :: Apart(Sprite(i), Sprite(j))
  {
  }

  lemma Apart3And3()
    ensures forall i, j | 24 <= i < j < 32 :: Apart(Sprite(i), Sprite(j))
  {
  }

  lemma Apart3And4()
    ensures forall i, j | 24 <= i < 32 && 32 <= j < 40 :: Apart(Sprite(i), Sprite(j))
  {
  }

  lemma Apart3And5()
    ensures forall i, j | 24 <= i < 32 && 40 <= j < 48 :: Apart(Sprite(i), Sprite(j))
  {
  }

  lemma Apart3And6()
    ensures forall i, j | 24 <= i < 32 && 48 <= j < 56 :: Apart(Sprite(i), Sprite(j))
  {
  }

  lemma Apart3And7()
    ensures forall i, j | 24 <= i < 32 && 56 <= j < 61 :: Apart(Sprite(i), Sprite(j))
  {
  }

  lemma Apart4And4()
    ensures forall i, j | 32 <= i < j < 40 :: Apart(Sprite(i), Sprite(j))
  {
  }

  lemma Apart4And5()
    ensures forall i, j | 32 <= i < 40 && 40 <= j < 48 :: Apart(Sprite(i), Sprite(j))
  {
  }

  lemma Apart4And6()
    ensures forall i, j | 32 <= i < 40 && 48 <= j < 56 :: Apart(Sprite(i), Sprite(j))
  {
  }

  lemma Apart4And7()
    ensures forall i, j | 32 <= i < 40 && 56 <= j < 61 :: Apart(Sprite(i), Sprite(j))
  {
  }

  lemma Apart5And5()
    ensures forall i, j | 40 <= i < j < 48 :: Apart(Sprite(i), Sprite(j))
  {
  }

  lemma Apart5And6()
    ensures forall i, j | 40 <= i < 48 && 48 <= j < 56 :: Apart(Sprite(i), Sprite(j))
  {
  }

  lemma Apart5And7()
    ensures forall i, j | 40 <= i < 48 && 56 <= j < 61 :: Apart(Sprite(i), Sprite(j))
  {
  }

  lemma Apart6And6()
    ensures forall i, j | 48 <= i < j < 56 :: Apart(Sprite(i), Sprite(j))
  {
  }

  lemma Apart6And7()
    ensures forall i, j | 48 <= i < 56 && 56 <= j < 61 :: Apart(Sprite(i), Sprite(j))
  {
  }

  lemma Apart7And7()
    ensures forall i, j | 56 <= i < j < 61 :: Apart(Sprite(i), Sprite(j))
  {
  }

  /** No two entries share a name or an atlas cell. */
  lemma EntriesApart(i: nat, j: nat)
    requires i < j < SPRITE_COUNT
    ensures Apart(Sprite(i), Sprite(j))
  {
    var p, q := i / 8, j / 8;
    if p == 0 && q == 0 {
      Apart0And0();
    } else if p == 0 && q == 1 {
      Apart0And1();
    } else if p == 0 && q == 2 {
      Apart0And2();
    } else if p == 0 && q == 3 {
      Apart0And3();
    } else if p == 0 && q == 4 {
      Apart0And4();
    } else if p == 0 && q == 5 {
      Apart0And5();
    } else if p == 0 && q == 6 {
      Apart0And6();
    } else if p == 0 && q == 7 {
      Apart0And7();
    } else if p == 1 && q == 1 {
      Apart1And1();
    } else if p == 1 && q == 2 {
      Apart1And2();
    } else if p == 1 && q == 3 {
      Apart1And3();
    } else if p == 1 && q == 4 {
      Apart1And4();
    } else if p == 1 && q == 5 {
      Apart1And5();
    } else if p == 1 && q == 6 {
      Apart1And6();
    } else if p == 1 && q == 7 {
      Apart1And7();
    } else if p == 2 && q == 2 {
      Apart2And2();
    } else if p == 2 && q == 3 {
      Apart2And3();
    } else if p == 2 && q == 4 {
      Apart2And4();
    } else if p == 2 && q == 5 {
      Apart2And5();
    } else if p == 2 && q == 6 {
      Apart2And6();
    } else if p == 2 && q == 7 {
      Apart2And7();
    } else if p == 3 && q == 3 {
      Apart3And3();
    } else if p == 3 && q == 4 {
      Apart3And4();
    } else if p == 3 && q == 5 {
      Apart3And5();
    } else if p == 3 && q == 6 {
      Apart3And6();
    } else if p == 3 && q == 7 {
      Apart3And7();
    } else if p == 4 && q == 4 {
      Apart4And4();
    } else if p == 4 && q == 5 {
      Apart4And5();
    } else if p == 4 && q == 6 {
      Apart4And6();
    } else if p == 4 && q == 7 {
      Apart4And7();
    } else if p == 5 && q == 5 {
      Apart5And5();
    } else if p == 5 && q == 6 {
      Apart5And6();
    } else if p == 5 && q == 7 {
      Apart5And7();
    } else if p == 6 && q == 6 {
      Apart6And6();
    } else if p == 6 && q == 7 {
      Apart6And7();
    } else if p == 7 && q == 7 {
      Apart7And7();
    }
  }

  /** Aligned tiles at different cells do not overlap. */
  lemma AlignedTilesDisjoint(x1: nat, y1: nat, x2: nat, y2: nat)
    requires x1 % 32 == 0 && y1 % 32 == 0 && x2 % 32 == 0 && y2 % 32 == 0 && (x1, y1) != (x2, y2)
    ensures x1 + 32 <= x2 || x2 + 32 <= x1 || y1 + 32 <= y2 || y2 + 32 <= y1
  {
    if x1 != x2 {
      assert x1 / 32 != x2 / 32;
    } else {
      assert y1 / 32 != y2 / 32;
    }
  }

  /**
   * Every sprite's rectangle lies inside the atlas, and the rectangles of
   * two different sprites do not overlap.
   */
  lemma SpriteRectsTileAtlas(i: nat, j: nat)
    requires i < SPRITE_COUNT && j < SPRITE_COUNT
    ensures var r := SpriteRect(TILEMAP, i);
            r.max.x <= AtlasSize(TILEMAP).x && r.max.y <= AtlasSize(TILEMAP).y
    ensures i != j ==>
              var r, t := SpriteRect(TILEMAP, i), SpriteRect(TILEMAP, j);
              r.max.x <= t.min.x || t.max.x <= r.min.x || r.max.y <= t.min.y || t.max.y <= r.min.y
  {
    TilemapSprites(i);
    TilemapSprites(j);
    CellsInAtlas(i);
    CellsInAtlas(j);
    if i != j {
      if i < j {
        EntriesApart(i, j);
      } else {
        EntriesApart(j, i);
      }
      AlignedTilesDisjoint(Sprite(i).pixelX, Sprite(i).pixelY, Sprite(j).pixelX, Sprite(j).pixelY);
    }
  }

  /** Looking up an entry's own name finds that entry. */
  lemma SpriteIndexOfEntry(i: nat)
    requires i < SPRITE_COUNT
    ensures SpriteIndex(TILEMAP, Sprite(i).name) == Some(i)
  {
    var name := Sprite(i).name;
    SpriteIndexFirst(TILEMAP, name);
    TilemapSprites(i);
    var r := SpriteIndex(TILEMAP, name);
    assert r.Some?;
    if r.value != i {
      var k := r.value;
      TilemapSprites(k);
      if k < i {
        EntriesApart(k, i);
      } else {
        EntriesApart(i, k);
      }
    }
  }

  /** Number of distinct sprite names the built-in tile rules (src/map/rules.rs) use. */
  const RULE_SPRITE_COUNT: nat := 61

  /**
   * The `k`-th sprite name the built-in rules ask for, in order of first
   * use, with the table entry that carries it.
   */
  function RuleSprite(k: nat): (string, nat)
    requires k < RULE_SPRITE_COUNT
  {
    match k
    case 0 => ("dirt", 0)
    case 1 => ("green_grass", 1)
    case 2 => ("green_grass_corner_out_tl", 6)
    case 3 => ("green_grass_corner_out_bl", 8)
    case 4 => ("green_grass_corner_out_br", 9)
    case 5 => ("green_grass_corner_out_tr", 7)
    case 6 => ("green_grass_corner_in_tl", 2)
    case 7 => ("green_grass_corner_in_bl", 4)
    case 8 => ("green_grass_corner_in_br", 5)
    case 9 => ("green_grass_corner_in_tr", 3)
    case 10 => ("green_grass_side_t", 10)
    case 11 => ("green_grass_side_l", 12)
    case 12 => ("green_grass_side_b", 13)
    case 13 => ("green_grass_side_r", 11)
    case 14 => ("yellow_grass", 14)
    case 15 => ("yellow_grass_corner_out_tl", 19)
    case 16 => ("yellow_grass_corner_out_bl", 21)
    case 17 => ("yellow_grass_corner_out_br", 22)
    case 18 => ("yellow_grass_corner_out_tr", 20)
    case 19 => ("yellow_grass_corner_in_tl", 15)
    case 20 => ("yellow_grass_corner_in_bl", 17)
    case 21 => ("yellow_grass_corner_in_br", 18)
    case 22 => ("yellow_grass_corner_in_tr", 16)
    case 23 => ("yellow_grass_side_t", 23)
    case 24 => ("yellow_grass_side_l", 25)
    case 25 => ("yellow_grass_side_b", 26)
    case 26 => ("yellow_grass_side_r", 24)
    case 27 => ("water", 27)
    case 28 => ("water_corner_out_tl", 32)
    case 29 => ("water_corner_out_bl", 34)
    case 30 => ("water_corner_out_br", 35)
    case 31 => ("water_corner_out_tr", 33)
    case 32 => ("water_corner_in_tl", 28)
    case 33 => ("water_corner_in_bl", 30)
    case 34 => ("water_corner_in_br", 31)
    case 35 => ("water_corner_in_tr", 29)
    case 36 => ("water_side_t", 36)
    case 37 => ("water_side_l", 38)
    case 38 => ("water_side_b", 39)
    case 39 => ("water_side_r", 37)
    case 40 => ("small_tree_bottom", 57)
    case 41 => ("small_tree_top", 56)
    case 42 => ("big_tree_1_bl", 42)
    case 43 => ("big_tree_1_tl", 40)
    case 44 => ("big_tree_1_br", 43)
    case 45 => ("big_tree_1_tr", 41)
    case 46 => ("big_tree_2_bl", 46)
    case 47 => ("big_tree_2_tl", 44)
    case 48 => ("big_tree_2_br", 47)
    case 49 => ("big_tree_2_tr", 45)
    case 50 => ("tree_stump_1", 58)
    case 51 => ("tree_stump_2", 59)
    case 52 => ("tree_stump_3", 60)
    case 53 => ("rock_1", 52)
    case 54 => ("rock_2", 53)
    case 55 => ("rock_3", 54)
    case 56 => ("rock_4", 55)
    case 57 => ("plant_1", 48)
    case 58 => ("plant_2", 49)
    case 59 => ("plant_3", 50)
    case _ => ("plant_4", 51)
  }

  /** The names the built-in rules use. */
  const RULE_SPRITE_NAMES: seq<string> :=
    seq(RULE_SPRITE_COUNT, k requires 0 <= k < RULE_SPRITE_COUNT => RuleSprite(k).0)

  ghost predicate RuleEntryNamed(k: nat)
    requires k < RULE_SPRITE_COUNT
  {
    RuleSprite(k).1 < SPRITE_COUNT && Sprite(RuleSprite(k).1).name == RuleSprite(k).0
  }

  // The rule names matched against the table eight at a time.

  lemma RuleEntriesNamed0To7()
    ensures forall k | 0 <= k < 8 :: RuleEntryNamed(k)
  {
  }

  lemma RuleEntriesNamed8To15()
    ensures forall k | 8 <= k < 16 :: RuleEntryNamed(k)
  {
  }

  lemma RuleEntriesNamed16To23()
    ensures forall k | 16 <= k < 24 :: RuleEntryNamed(k)
  {
  }

  lemma RuleEntriesNamed24To31()
    ensures forall k | 24 <= k < 32 :: RuleEntryNamed(k)
  {
  }

  lemma RuleEntriesNamed32To39()
    ensures forall k | 32 <= k < 40 :: RuleEntryNamed(k)
  {
  }

  lemma RuleEntriesNamed40To47()
    ensures forall k | 40 <= k < 48 :: RuleEntryNamed(k)
  {
  }

  lemma RuleEntriesNamed48To55()
    ensures forall k | 48 <= k < 56 :: RuleEntryNamed(k)
  {
  }

  lemma RuleEntriesNamed56To60()
    ensures forall k | 56 <= k < 61 :: RuleEntryNamed(k)
  {
  }

  /** Each rule name is the name of its table entry. */
  lemma RuleEntryNamedAt(k: nat)
    requires k < RULE_SPRITE_COUNT
    ensures RuleEntryNamed(k)
  {
    if k < 8 {
      RuleEntriesNamed0To7();
    } else if k < 16 {
      RuleEntriesNamed8To15();
    } else if k < 24 {
      RuleEntriesNamed16To23();
    } else if k < 32 {
      RuleEntriesNamed24To31();
    } else if k < 40 {
      RuleEntriesNamed32To39();
    } else if k < 48 {
      RuleEntriesNamed40To47();
    } else if k < 56 {
      RuleEntriesNamed48To55();
    } else {
      RuleEntriesNamed56To60();
    }
  }

  /**
   * Every sprite name the built-in rules use is in the table, so resolving
   * the rules' sprites by `sprite_index` never fails (src/map/assets.rs:144-146).
   */
  lemma RuleSpritesResolve(k: nat)
    requires k < |RULE_SPRITE_NAMES|
    ensures SpriteIndex(TILEMAP, RULE_SPRITE_NAMES[k]).Some?
    ensures var i := SpriteIndex(TILEMAP, RULE_SPRITE_NAMES[k]).value;
            i < SPRITE_COUNT && TILEMAP.sprites[i].name == RULE_SPRITE_NAMES[k]
  {
    RuleEntryNamedAt(k);
    SpriteIndexOfEntry(RuleSprite(k).1);
    TilemapSprites(RuleSprite(k).1);
  }
}
