/**
 * Building the collision map from the spawned tile entities, and the
 * shoreline pass that runs once on the fresh map (src/collision/systems.rs).
 */
module CollisionSystems {
  import opened Wrappers
  import opened Geometry
  import opened TileTypes
  import opened CollisionMaps
  import opened IntArith
  import GameConfig

  const I32_MIN: int := -0x8000_0000
  const I32_MAX: int := 0x7fff_ffff

  /** Rust's `as i32` on an already floored value: out-of-range values saturate. */
  function CastI32(k: int): (r: int)
    ensures I32_MIN <= r <= I32_MAX
    ensures I32_MIN <= k <= I32_MAX ==> r == k
    ensures k < I32_MIN ==> r == I32_MIN
    ensures k > I32_MAX ==> r == I32_MAX
  {
    if k < I32_MIN then I32_MIN else if k > I32_MAX then I32_MAX else k
  }

  /** The fixed grid origin: the lower-left corner of a GRID_X by GRID_Y map centred on the world origin. */
  const GRID_ORIGIN_X: real := -GameConfig.TILE_SIZE * GameConfig.GRID_X as real / 2.0
  const GRID_ORIGIN_Y: real := -GameConfig.TILE_SIZE * GameConfig.GRID_Y as real / 2.0

  lemma GridOriginValue()
    ensures GRID_ORIGIN_X == -400.0 && GRID_ORIGIN_Y == -288.0
  {
  }

  /** One item of the tile query: the marker and the entity's translation. */
  datatype TilePlacement = TilePlacement(marker: TileMarker, translation: Vec3)

  /** What the layer tracker keeps per cell: the kind and the height it was seen at. */
  datatype Layer = Layer(tileType: TileType, z: real)

  datatype Axis = X | Y

  function Coord(c: GridPos, a: Axis): int {
    match a
    case X => c.x
    case Y => c.y
  }

  /** The absolute grid cell a placement falls into, relative to the fixed origin. */
  function PlacementCell(p: TilePlacement): (c: GridPos)
    ensures I32_MIN <= c.x <= I32_MAX && I32_MIN <= c.y <= I32_MAX
  {
    GridPos(CastI32(((p.translation.x - GRID_ORIGIN_X) / GameConfig.TILE_SIZE).Floor),
            CastI32(((p.translation.y - GRID_ORIGIN_Y) / GameConfig.TILE_SIZE).Floor))
  }

  /** What `process_tile` reads off one placement: its absolute cell, its kind and its height. */
  datatype Sighting = Sighting(cell: GridPos, tileType: TileType, z: real)

  function Sight(p: TilePlacement): (s: Sighting)
    ensures s.cell == PlacementCell(p) && s.tileType == p.marker.tileType && s.z == p.translation.z
  {
    Sighting(PlacementCell(p), p.marker.tileType, p.translation.z)
  }

  /** The sightings of the placements, in query order. */
  function Sightings(ps: seq<TilePlacement>): (ss: seq<Sighting>)
    ensures |ss| == |ps|
    ensures AllInI32(ss)
  {
    if |ps| == 0 then [] else Sightings(ps[..|ps| - 1]) + [Sight(ps[|ps| - 1])]
  }

  lemma {:induction false} SightingsAt(ps: seq<TilePlacement>, j: int)
    requires 0 <= j < |ps|
    ensures Sightings(ps)[j] == Sight(ps[j])
  {
    if j < |ps| - 1 {
      SightingsAt(ps[..|ps| - 1], j);
    }
  }

  lemma SightingsSnoc(ps: seq<TilePlacement>, i: int)
    requires 0 <= i < |ps|
    ensures Sightings(ps[..i + 1]) == Sightings(ps[..i]) + [Sight(ps[i])]
  {
    assert ps[..i + 1][..i] == ps[..i];
  }

  predicate InI32(c: GridPos) {
    I32_MIN <= c.x <= I32_MAX && I32_MIN <= c.y <= I32_MAX
  }

  /** Every sighting's cell is a pair of `i32` values. */
  predicate AllInI32(ss: seq<Sighting>) {
    forall j | 0 <= j < |ss| :: InI32(ss[j].cell)
  }

  // ---- the layer tracker ----

  /** One `process_tile` entry update: a cell keeps the sighting at a strictly greater height. */
  function Track(tracker: map<GridPos, Layer>, s: Sighting): map<GridPos, Layer> {
    if s.cell in tracker then
      if s.z > tracker[s.cell].z then tracker[s.cell := Layer(s.tileType, s.z)] else tracker
    else tracker[s.cell := Layer(s.tileType, s.z)]
  }

  /** The tracker after processing the sightings in order. */
  function Tracked(ss: seq<Sighting>): map<GridPos, Layer> {
    if |ss| == 0 then map[] else Track(Tracked(ss[..|ss| - 1]), ss[|ss| - 1])
  }

  /**
   * Sighting `i` is the one its cell ends with: no sighting of that cell is
   * higher, and every earlier one of that cell is strictly lower.
   */
  ghost predicate IsTopmost(ss: seq<Sighting>, i: int) {
    0 <= i < |ss| &&
    (forall j | 0 <= j < |ss| && ss[j].cell == ss[i].cell :: ss[j].z <= ss[i].z) &&
    (forall j | 0 <= j < i && ss[j].cell == ss[i].cell :: ss[j].z < ss[i].z)
  }

  /** The tracker has an entry exactly for the cells some sighting falls into. */
  lemma {:induction false} TrackedKeys(ss: seq<Sighting>, c: GridPos)
    ensures c in Tracked(ss) <==> exists i | 0 <= i < |ss| :: ss[i].cell == c
  {
    if |ss| > 0 {
      var init := ss[..|ss| - 1];
      TrackedKeys(init, c);
      if c in Tracked(init) {
        var i :| 0 <= i < |init| && init[i].cell == c;
        assert ss[i].cell == c;
      }
      if exists i | 0 <= i < |ss| :: ss[i].cell == c {
        var i :| 0 <= i < |ss| && ss[i].cell == c;
        if i < |init| {
          assert init[i].cell == c;
        }
      }
    }
  }

  /** An earlier topmost sighting stays topmost when the new one is elsewhere or not higher. */
  lemma TopmostKept(init: seq<Sighting>, s: Sighting, i: int)
    requires IsTopmost(init, i) && (s.cell != init[i].cell || s.z <= init[i].z)
    ensures IsTopmost(init + [s], i)
  {
    var ss := init + [s];
    assert forall k | 0 <= k < |init| :: ss[k] == init[k];
  }

  /** The new sighting is topmost when every earlier one of its cell is strictly lower. */
  lemma TopmostLast(init: seq<Sighting>, s: Sighting)
    requires forall j | 0 <= j < |init| && init[j].cell == s.cell :: init[j].z < s.z
    ensures IsTopmost(init + [s], |init|)
  {
    var ss := init + [s];
    assert forall k | 0 <= k < |init| :: ss[k] == init[k];
  }

  /** Each cell ends with the kind and height of its topmost sighting, the first one on ties. */
  lemma {:induction false} TrackedTopmost(ss: seq<Sighting>, c: GridPos)
    requires c in Tracked(ss)
    ensures exists i :: IsTopmost(ss, i) && ss[i].cell == c && Tracked(ss)[c] == Layer(ss[i].tileType, ss[i].z)
  {
    var n := |ss|;
    var init, s := ss[..n - 1], ss[n - 1];
    assert ss == init + [s];
    var prev := Tracked(init);
    if c != s.cell {
      TrackedTopmost(init, c);
      var i :| IsTopmost(init, i) && init[i].cell == c && prev[c] == Layer(init[i].tileType, init[i].z);
      TopmostKept(init, s, i);
      assert ss[i] == init[i];
    } else if c in prev {
      TrackedTopmost(init, c);
      var i :| IsTopmost(init, i) && init[i].cell == c && prev[c] == Layer(init[i].tileType, init[i].z);
      if s.z > prev[c].z {
        TopmostLast(init, s);
      } else {
        TopmostKept(init, s, i);
        assert ss[i] == init[i];
      }
    } else {
      TrackedKeys(init, c);
      TopmostLast(init, s);
    }
  }

  // ---- the bounds accumulators ----

  /** `min_x`/`min_y` after the sightings, starting from `i32::MAX`; in i32 range once anything was seen. */
  function AccMin(ss: seq<Sighting>, a: Axis): (r: int)
    requires AllInI32(ss)
    ensures r <= I32_MAX
    ensures |ss| > 0 ==> I32_MIN <= r
  {
    if |ss| == 0 then I32_MAX
    else
      var init := ss[..|ss| - 1];
      var v := Coord(ss[|ss| - 1].cell, a);
      assert InI32(ss[|ss| - 1].cell);
      assert forall j | 0 <= j < |init| :: init[j] == ss[j];
      var prev := AccMin(init, a);
      if v < prev then v else prev
  }

  /** `max_x`/`max_y` after the sightings, starting from `i32::MIN`; in i32 range once anything was seen. */
  function AccMax(ss: seq<Sighting>, a: Axis): (r: int)
    requires AllInI32(ss)
    ensures r >= I32_MIN
    ensures |ss| > 0 ==> r <= I32_MAX
  {
    if |ss| == 0 then I32_MIN
    else
      var init := ss[..|ss| - 1];
      var v := Coord(ss[|ss| - 1].cell, a);
      assert InI32(ss[|ss| - 1].cell);
      assert forall j | 0 <= j < |init| :: init[j] == ss[j];
      var prev := AccMax(init, a);
      if v > prev then v else prev
  }

  /** No sighting lies below the accumulated minimum nor above the accumulated maximum. */
  lemma {:induction false} AccBounds(ss: seq<Sighting>, a: Axis, j: int)
    requires AllInI32(ss) && 0 <= j < |ss|
    ensures AccMin(ss, a) <= Coord(ss[j].cell, a) <= AccMax(ss, a)
  {
    var init := ss[..|ss| - 1];
    assert forall k | 0 <= k < |init| :: init[k] == ss[k];
    if j < |init| {
      AccBounds(init, a, j);
    }
  }

  /** Once anything was seen, the accumulated minimum and maximum are coordinates of actual sightings. */
  lemma {:induction false} AccAttained(ss: seq<Sighting>, a: Axis)
    requires AllInI32(ss) && |ss| > 0
    ensures exists j | 0 <= j < |ss| :: AccMin(ss, a) == Coord(ss[j].cell, a)
    ensures exists j | 0 <= j < |ss| :: AccMax(ss, a) == Coord(ss[j].cell, a)
  {
    var n := |ss|;
    var init := ss[..n - 1];
    assert forall k | 0 <= k < |init| :: init[k] == ss[k];
    var v := Coord(ss[n - 1].cell, a);
    if n == 1 {
      assert AccMin(ss, a) == v && AccMax(ss, a) == v;
    } else {
      AccAttained(init, a);
      if v >= AccMin(init, a) {
        var j :| 0 <= j < |init| && AccMin(init, a) == Coord(init[j].cell, a);
        assert AccMin(ss, a) == Coord(ss[j].cell, a);
      } else {
        assert AccMin(ss, a) == Coord(ss[n - 1].cell, a);
      }
      if v <= AccMax(init, a) {
        var j :| 0 <= j < |init| && AccMax(init, a) == Coord(init[j].cell, a);
        assert AccMax(ss, a) == Coord(ss[j].cell, a);
      } else {
        assert AccMax(ss, a) == Coord(ss[n - 1].cell, a);
      }
    }
  }

  /** Processing one more sighting updates the accumulators and the tracker exactly as `process_tile` does. */
  lemma AccStep(ss: seq<Sighting>, s: Sighting)
    requires AllInI32(ss)
    requires InI32(s.cell)
    ensures AllInI32(ss + [s])
    ensures AccMin(ss + [s], X) == if s.cell.x < AccMin(ss, X) then s.cell.x else AccMin(ss, X)
    ensures AccMax(ss + [s], X) == if s.cell.x > AccMax(ss, X) then s.cell.x else AccMax(ss, X)
    ensures AccMin(ss + [s], Y) == if s.cell.y < AccMin(ss, Y) then s.cell.y else AccMin(ss, Y)
    ensures AccMax(ss + [s], Y) == if s.cell.y > AccMax(ss, Y) then s.cell.y else AccMax(ss, Y)
    ensures Tracked(ss + [s]) == Track(Tracked(ss), s)
  {
    var t := ss + [s];
    assert t[..|t| - 1] == ss && t[|t| - 1] == s;
  }

  /** `actual_width`/`actual_height`: the observed extent; with any sighting at all it is at least one. */
  function Extent(ss: seq<Sighting>, a: Axis): (e: int)
    requires AllInI32(ss)
    ensures |ss| > 0 ==> e >= 1
  {
    if |ss| > 0 then
      AccBounds(ss, a, 0);
      AccMax(ss, a) - AccMin(ss, a) + 1
    else AccMax(ss, a) - AccMin(ss, a) + 1
  }

  /** Every tracked cell, shifted by the observed minimum, lands inside the map; no write is dropped. */
  lemma TrackedCellInRange(ss: seq<Sighting>, c: GridPos)
    requires AllInI32(ss)
    requires c in Tracked(ss)
    ensures 0 <= c.x - AccMin(ss, X) < Extent(ss, X)
    ensures 0 <= c.y - AccMin(ss, Y) < Extent(ss, Y)
  {
    TrackedKeys(ss, c);
    var i :| 0 <= i < |ss| && ss[i].cell == c;
    AccBounds(ss, X, i);
    AccBounds(ss, Y, i);
  }

  // ---- a value-level view of a row-major grid ----

  /** The cell (x, y) of a `w` by `h` row-major tile sequence, None off the grid. */
  function CellIn(tiles: seq<TileType>, w: int, h: int, x: int, y: int): (t: Option<TileType>)
    ensures t.Some? <==> |tiles| == w * h && 0 <= x < w && 0 <= y < h
  {
    if |tiles| == w * h && 0 <= x < w && 0 <= y < h then
      RowMajorInRange(w, h, x, y);
      Some(tiles[y * w + x])
    else None
  }

  predicate WalkableIn(tiles: seq<TileType>, w: int, h: int, x: int, y: int) {
    match CellIn(tiles, w, h, x, y)
    case Some(t) => IsWalkable(t)
    case None => false
  }

  /** The map's own accessors read the same cells as the value-level view. */
  lemma MapView(m: CollisionMap)
    requires m.Valid()
    ensures forall x, y :: m.GetTile(x, y) == CellIn(m.tiles, m.width, m.height, x, y)
    ensures forall x, y :: m.IsWalkable(x, y) == WalkableIn(m.tiles, m.width, m.height, x, y)
  {
  }

  /** Two grids of the same shape that agree on every cell are equal. */
  lemma GridExt(a: seq<TileType>, b: seq<TileType>, w: int, h: int)
    requires w > 0 && |a| == w * h && |b| == w * h
    requires forall x, y | 0 <= x < w && 0 <= y < h :: CellIn(a, w, h, x, y) == CellIn(b, w, h, x, y)
    ensures a == b
  {
    forall i | 0 <= i < |a|
      ensures a[i] == b[i]
    {
      var x, y := i % w, i / w;
      assert i == y * w + x;
      if y >= h {
        MulGe(y, h, w);
      }
      assert CellIn(a, w, h, x, y) == Some(a[i]);
    }
  }

  // ---- filling the map from the tracker ----

  /** The tiles a `w` by `h` map holds after every tracked cell is written at its shifted position. */
  function Filled(tracker: map<GridPos, Layer>, minX: int, minY: int, w: int, h: int): (tiles: seq<TileType>)
    requires w > 0 && h > 0
    ensures |tiles| == w * h
  {
    MulGe(h, 1, w);
    seq(w * h, i requires 0 <= i < w * h =>
      var c := GridPos(i % w + minX, i / w + minY);
      if c in tracker then tracker[c].tileType else Empty)
  }

  /** A filled cell holds the tracked kind of its absolute cell, Empty where nothing was placed. */
  lemma FilledAt(tracker: map<GridPos, Layer>, minX: int, minY: int, w: int, h: int, x: int, y: int)
    requires w > 0 && h > 0 && 0 <= x < w && 0 <= y < h
    ensures CellIn(Filled(tracker, minX, minY, w, h), w, h, x, y) ==
            Some(var c := GridPos(x + minX, y + minY); if c in tracker then tracker[c].tileType else Empty)
  {
    var i := y * w + x;
    RowMajorInRange(w, h, x, y);
    DivModCell(w, x, y);
    var f := Filled(tracker, minX, minY, w, h);
    assert CellIn(f, w, h, x, y) == Some(f[i]);
  }

  // ---- the shoreline pass ----

  /** The eight neighbours `convert_water_edges_to_shore` inspects, in its order. */
  const NEIGHBOURS: seq<GridPos> := [
    GridPos(-1, 0), GridPos(1, 0), GridPos(0, -1), GridPos(0, 1),
    GridPos(-1, -1), GridPos(1, -1), GridPos(-1, 1), GridPos(1, 1)]

  /** Some one of the eight neighbours of (x, y) is a walkable on-grid cell. */
  predicate HasWalkableNeighbour(tiles: seq<TileType>, w: int, h: int, x: int, y: int) {
    exists k | 0 <= k < |NEIGHBOURS| :: WalkableIn(tiles, w, h, x + NEIGHBOURS[k].x, y + NEIGHBOURS[k].y)
  }

  /** A Water cell with a walkable neighbour: the pass turns it into Shore. */
  predicate ShoreCell(tiles: seq<TileType>, w: int, h: int, x: int, y: int) {
    CellIn(tiles, w, h, x, y) == Some(Water) && HasWalkableNeighbour(tiles, w, h, x, y)
  }

  /** The grid after one shoreline pass; every decision reads the grid as it was before the pass. */
  function ShorePass(tiles: seq<TileType>, w: int, h: int): (r: seq<TileType>)
    ensures |r| == |tiles|
  {
    seq(|tiles|, i requires 0 <= i < |tiles| =>
      if w > 0 && ShoreCell(tiles, w, h, i % w, i / w) then Shore else tiles[i])
  }

  /** What the pass does to one cell: Water next to land becomes Shore, every other cell is kept. */
  lemma ShorePassAt(tiles: seq<TileType>, w: int, h: int, x: int, y: int)
    ensures CellIn(ShorePass(tiles, w, h), w, h, x, y) ==
            if ShoreCell(tiles, w, h, x, y) then Some(Shore) else CellIn(tiles, w, h, x, y)
  {
    if CellIn(tiles, w, h, x, y).Some? {
      var i := y * w + x;
      RowMajorInRange(w, h, x, y);
      DivModCell(w, x, y);
      var r := ShorePass(tiles, w, h);
      assert CellIn(r, w, h, x, y) == Some(r[i]);
      assert CellIn(tiles, w, h, x, y) == Some(tiles[i]);
    }
  }

  /** A cell is converted exactly when it was Water and one of its eight neighbours was walkable. */
  lemma ShoreByConversion(tiles: seq<TileType>, w: int, h: int, x: int, y: int)
    ensures (CellIn(tiles, w, h, x, y) == Some(Water) && CellIn(ShorePass(tiles, w, h), w, h, x, y) == Some(Shore))
            <==> (CellIn(tiles, w, h, x, y) == Some(Water) && HasWalkableNeighbour(tiles, w, h, x, y))
  {
    ShorePassAt(tiles, w, h, x, y);
  }

  /** Cells that are not Water come through the pass unchanged. */
  lemma NonWaterUnchanged(tiles: seq<TileType>, w: int, h: int, x: int, y: int)
    requires CellIn(tiles, w, h, x, y) != Some(Water)
    ensures CellIn(ShorePass(tiles, w, h), w, h, x, y) == CellIn(tiles, w, h, x, y)
  {
    ShorePassAt(tiles, w, h, x, y);
  }

  /** A Water cell surrounded only by blocking or off-grid cells stays Water. */
  lemma EnclosedWaterStays(tiles: seq<TileType>, w: int, h: int, x: int, y: int)
    requires CellIn(tiles, w, h, x, y) == Some(Water)
    requires forall k | 0 <= k < |NEIGHBOURS| ::
               var n := CellIn(tiles, w, h, x + NEIGHBOURS[k].x, y + NEIGHBOURS[k].y);
               n.None? || !IsWalkable(n.value)
    ensures CellIn(ShorePass(tiles, w, h), w, h, x, y) == Some(Water)
  {
    ShorePassAt(tiles, w, h, x, y);
  }

  /**
   * Running the pass a second time converts more water: the new Shore is
   * walkable, so the Water behind it now has a walkable neighbour.
   */
  lemma ShorePassNotIdempotent()
    ensures ShorePass([Grass, Water, Water], 3, 1) == [Grass, Shore, Water]
    ensures ShorePass(ShorePass([Grass, Water, Water], 3, 1), 3, 1) == [Grass, Shore, Shore]
  {
    var t := [Grass, Water, Water];
    assert WalkableIn(t, 3, 1, 1 + NEIGHBOURS[0].x, 0 + NEIGHBOURS[0].y);
    assert ShoreCell(t, 3, 1, 1, 0);
    forall k | 0 <= k < |NEIGHBOURS|
      ensures !WalkableIn(t, 3, 1, 2 + NEIGHBOURS[k].x, 0 + NEIGHBOURS[k].y)
    {
    }
    assert !ShoreCell(t, 3, 1, 2, 0);
    var t1 := ShorePass(t, 3, 1);
    assert t1 == [Grass, Shore, Water];
    assert WalkableIn(t1, 3, 1, 2 + NEIGHBOURS[0].x, 0 + NEIGHBOURS[0].y);
    assert ShoreCell(t1, 3, 1, 2, 0);
    assert !ShoreCell(t1, 3, 1, 1, 0);
  }

  /** A grid with no columns has no cells to convert. */
  lemma ShorePassNoColumns(tiles: seq<TileType>, w: int, h: int)
    requires w <= 0
    ensures ShorePass(tiles, w, h) == tiles
  {
  }

  /** `convert_water_edges_to_shore`: scan row by row collecting shore cells, then write them all. */
  method ConvertWaterEdgesToShore(m: CollisionMap)
    requires m.Valid()
    modifies m`tiles
    ensures m.Valid()
    ensures m.tiles == ShorePass(old(m.tiles), m.width, m.height)
  {
    ghost var t := m.tiles;
    var w, h := m.width, m.height;
    var shores := ScanShores(m);
    WriteShores(m, shores);
    if w > 0 {
      forall x, y | 0 <= x < w && 0 <= y < h
        ensures CellIn(m.tiles, w, h, x, y) == CellIn(ShorePass(t, w, h), w, h, x, y)
      {
        ShorePassAt(t, w, h, x, y);
      }
      GridExt(m.tiles, ShorePass(t, w, h), w, h);
    } else {
      ShorePassNoColumns(t, w, h);
    }
  }

  /** The two scan loops: the cells that are Water with a walkable neighbour, in row-major order. */
  method ScanShores(m: CollisionMap) returns (shores: seq<GridPos>)
    requires m.Valid()
    ensures forall c | c in shores :: 0 <= c.x < m.width && 0 <= c.y < m.height && ShoreCell(m.tiles, m.width, m.height, c.x, c.y)
    ensures forall x, y | 0 <= x < m.width && 0 <= y < m.height && ShoreCell(m.tiles, m.width, m.height, x, y) ::
              GridPos(x, y) in shores
    ensures m.width <= 0 ==> shores == []
  {
    var w, h := m.width, m.height;
    ghost var t := m.tiles;
    MapView(m);
    shores := [];
    var y := 0;
    while y < h
      invariant 0 <= y && (h >= 0 ==> y <= h) && (w <= 0 ==> shores == [])
      invariant forall c | c in shores :: 0 <= c.y < y && 0 <= c.x < w && ShoreCell(t, w, h, c.x, c.y)
      invariant forall cx, cy | 0 <= cy < y && 0 <= cx < w && ShoreCell(t, w, h, cx, cy) :: GridPos(cx, cy) in shores
    {
      var x := 0;
      while x < w
        invariant 0 <= x && (w >= 0 ==> x <= w) && (w <= 0 ==> shores == [])
        invariant forall c | c in shores :: (0 <= c.y < y || (c.y == y && c.x < x)) && 0 <= c.x < w && ShoreCell(t, w, h, c.x, c.y)
        invariant forall cx, cy | (0 <= cy < y || (cy == y && 0 <= cx < x)) && 0 <= cx < w && ShoreCell(t, w, h, cx, cy) ::
                    GridPos(cx, cy) in shores
      {
        if m.GetTile(x, y) == Some(Water) {
          var found := FirstWalkableNeighbour(m, x, y);
          if found {
            shores := shores + [GridPos(x, y)];
          }
        }
        x := x + 1;
      }
      y := y + 1;
    }
  }

  /** The write loop: every collected cell becomes Shore, every other cell keeps its tile. */
  method WriteShores(m: CollisionMap, shores: seq<GridPos>)
    requires m.Valid()
    requires forall c | c in shores :: 0 <= c.x < m.width && 0 <= c.y < m.height
    modifies m`tiles
    ensures m.Valid()
    ensures shores == [] ==> m.tiles == old(m.tiles)
    ensures forall x, y :: CellIn(m.tiles, m.width, m.height, x, y) ==
                             if GridPos(x, y) in shores then Some(Shore) else CellIn(old(m.tiles), m.width, m.height, x, y)
  {
    ghost var t := m.tiles;
    var w, h := m.width, m.height;
    MapView(m);
    var i := 0;
    while i < |shores|
      invariant 0 <= i <= |shores| && m.Valid()
      invariant i == 0 ==> m.tiles == t
      invariant forall x, y :: CellIn(m.tiles, w, h, x, y) ==
                                 if GridPos(x, y) in shores[..i] then Some(Shore) else CellIn(t, w, h, x, y)
    {
      m.SetTile(shores[i].x, shores[i].y, Shore);
      MapView(m);
      assert shores[..i + 1] == shores[..i] + [shores[i]];
      i := i + 1;
    }
    assert shores[..i] == shores;
  }

  /** The inner neighbour loop: true at the first walkable neighbour, in the fixed order. */
  method FirstWalkableNeighbour(m: CollisionMap, x: int, y: int) returns (found: bool)
    requires m.Valid()
    ensures found == HasWalkableNeighbour(m.tiles, m.width, m.height, x, y)
  {
    MapView(m);
    var k := 0;
    while k < |NEIGHBOURS|
      invariant 0 <= k <= |NEIGHBOURS|
      invariant forall j | 0 <= j < k :: !WalkableIn(m.tiles, m.width, m.height, x + NEIGHBOURS[j].x, y + NEIGHBOURS[j].y)
    {
      if m.IsWalkable(x + NEIGHBOURS[k].x, y + NEIGHBOURS[k].y) {
        return true;
      }
      k := k + 1;
    }
    return false;
  }

  // ---- the build system ----

  /** The `CollisionMapBuilt` resource. */
  class CollisionMapBuilt {
    var built: bool

    constructor ()
      ensures !built
    {
      built := false;
    }
  }

  /** The map `build_collision_map` inserts for placements `ps`. */
  ghost predicate BuiltFrom(m: CollisionMap, ps: seq<TilePlacement>)
    reads m
    requires |ps| > 0
  {
    var ss := Sightings(ps);
    var w, h := Extent(ss, X), Extent(ss, Y);
    m.Valid() && m.width == w && m.height == h &&
    m.tileSize == GameConfig.TILE_SIZE && m.originX == GRID_ORIGIN_X && m.originY == GRID_ORIGIN_Y &&
    m.tiles == ShorePass(Filled(Tracked(ss), AccMin(ss, X), AccMin(ss, Y), w, h), w, h)
  }

  /**
   * `build_collision_map`: with no tile entities nothing is inserted and the
   * flag is left alone; otherwise the map is sized from the observed cells,
   * filled with each cell's topmost tile, given its shoreline and returned
   * as the new resource, and the flag is set.
   */
  method BuildCollisionMap(placements: seq<TilePlacement>, built: CollisionMapBuilt)
    returns (resource: Option<CollisionMap>)
    modifies built
    ensures |placements| == 0 ==> resource == None && built.built == old(built.built)
    ensures |placements| > 0 ==> resource.Some? && fresh(resource.value) && built.built &&
                                 BuiltFrom(resource.value, placements)
  {
    if |placements| == 0 {
      return None;
    }
    ghost var ss := Sightings(placements);
    var minX, maxX, minY, maxY, tracker := ProcessTiles(placements);
    var width, height := maxX - minX + 1, maxY - minY + 1;
    assert width == Extent(ss, X) && height == Extent(ss, Y);
    MulGe(height, 1, width);
    var m := new CollisionMap(width, height, GameConfig.TILE_SIZE, GRID_ORIGIN_X, GRID_ORIGIN_Y);
    forall c | c in tracker
      ensures 0 <= c.x - minX < width && 0 <= c.y - minY < height
    {
      TrackedCellInRange(ss, c);
    }
    FillFromTracker(m, tracker, minX, minY);
    ConvertWaterEdgesToShore(m);
    built.built := true;
    return Some(m);
  }

  /**
   * The `process_tile` closure applied to every placement in query order:
   * the bounds accumulators and the layer tracker it leaves behind.
   */
  method ProcessTiles(placements: seq<TilePlacement>)
    returns (minX: int, maxX: int, minY: int, maxY: int, tracker: map<GridPos, Layer>)
    ensures tracker == Tracked(Sightings(placements))
    ensures minX == AccMin(Sightings(placements), X) && maxX == AccMax(Sightings(placements), X)
    ensures minY == AccMin(Sightings(placements), Y) && maxY == AccMax(Sightings(placements), Y)
  {
    minX, maxX, minY, maxY := I32_MAX, I32_MIN, I32_MAX, I32_MIN;
    tracker := map[];
    var i := 0;
    ghost var seen: seq<Sighting> := [];
    while i < |placements|
      invariant 0 <= i <= |placements| && seen == Sightings(placements[..i]) && AllInI32(seen)
      invariant minX == AccMin(seen, X) && maxX == AccMax(seen, X)
      invariant minY == AccMin(seen, Y) && maxY == AccMax(seen, Y)
      invariant tracker == Tracked(seen)
    {
      var p := placements[i];
      var cell := PlacementCell(p);
      ghost var s := Sight(p);
      minX := if cell.x < minX then cell.x else minX;
      maxX := if cell.x > maxX then cell.x else maxX;
      minY := if cell.y < minY then cell.y else minY;
      maxY := if cell.y > maxY then cell.y else maxY;
      tracker := UpdateLayer(tracker, cell, p.marker.tileType, p.translation.z);
      AccStep(seen, s);
      SightingsSnoc(placements, i);
      seen := seen + [s];
      i := i + 1;
    }
    assert placements[..i] == placements;
  }

  /** The `layer_tracker.entry(..)` match: insert into a vacant entry, replace an occupied one only from strictly higher up. */
  method UpdateLayer(tracker: map<GridPos, Layer>, cell: GridPos, tileType: TileType, z: real)
    returns (updated: map<GridPos, Layer>)
    ensures updated == Track(tracker, Sighting(cell, tileType, z))
  {
    updated := tracker;
    if cell in tracker {
      if z > tracker[cell].z {
        updated := tracker[cell := Layer(tileType, z)];
      }
    } else {
      updated := tracker[cell := Layer(tileType, z)];
    }
  }

  /** Tracking one more cell changes the filled grid in exactly that cell's flat index. */
  lemma FilledInsert(tracker: map<GridPos, Layer>, c: GridPos, l: Layer, minX: int, minY: int, w: int, h: int)
    requires w > 0 && h > 0 && 0 <= c.x - minX < w && 0 <= c.y - minY < h
    ensures 0 <= (c.y - minY) * w + (c.x - minX) < w * h
    ensures Filled(tracker[c := l], minX, minY, w, h) ==
            Filled(tracker, minX, minY, w, h)[(c.y - minY) * w + (c.x - minX) := l.tileType]
  {
    var idx := (c.y - minY) * w + (c.x - minX);
    RowMajorInRange(w, h, c.x - minX, c.y - minY);
    DivModCell(w, c.x - minX, c.y - minY);
    var f, g := Filled(tracker, minX, minY, w, h), Filled(tracker[c := l], minX, minY, w, h);
    forall i | 0 <= i < w * h
      ensures g[i] == f[idx := l.tileType][i]
    {
      var p := GridPos(i % w + minX, i / w + minY);
      if i != idx {
        assert i == (i / w) * w + i % w;
        assert p != c;
      }
    }
  }

  /**
   * The remap loop: every tracked cell is written at its position relative
   * to the observed minimum, in the map's own (unspecified) key order.
   */
  method FillFromTracker(m: CollisionMap, tracker: map<GridPos, Layer>, minX: int, minY: int)
    requires m.Valid() && m.width > 0 && m.height > 0
    requires forall i | 0 <= i < |m.tiles| :: m.tiles[i] == Empty
    requires forall c | c in tracker :: 0 <= c.x - minX < m.width && 0 <= c.y - minY < m.height
    modifies m`tiles
    ensures m.Valid() && m.tiles == Filled(tracker, minX, minY, m.width, m.height)
  {
    var width, height := m.width, m.height;
    var remaining := tracker.Keys;
    ghost var done: map<GridPos, Layer> := map[];
    assert m.tiles == Filled(done, minX, minY, width, height);
    while remaining != {}
      invariant remaining <= tracker.Keys && m.Valid()
      invariant done.Keys == tracker.Keys - remaining && forall c | c in done :: done[c] == tracker[c]
      invariant m.tiles == Filled(done, minX, minY, width, height)
      decreases |remaining|
    {
      var c :| c in remaining;
      m.SetTile(c.x - minX, c.y - minY, tracker[c].tileType);
      FilledInsert(done, c, tracker[c], minX, minY, width, height);
      done := done[c := tracker[c]];
      remaining := remaining - {c};
    }
    assert done == tracker;
  }

  /**
   * Before the shoreline pass, a built map's cell (x, y) holds the kind of the
   * topmost sighting in absolute cell (x + minX, y + minY), or Empty when no
   * placement fell there (sighting `i` is placement `i`, by `SightingsAt`).
   */
  lemma FilledTopmost(ss: seq<Sighting>, minX: int, minY: int, w: int, h: int, x: int, y: int)
    requires w > 0 && h > 0 && 0 <= x < w && 0 <= y < h
    ensures var c := GridPos(x + minX, y + minY);
            var cell := CellIn(Filled(Tracked(ss), minX, minY, w, h), w, h, x, y);
            (c !in Tracked(ss) && cell == Some(Empty)) ||
            (exists i :: IsTopmost(ss, i) && ss[i].cell == c && cell == Some(ss[i].tileType))
  {
    var c := GridPos(x + minX, y + minY);
    FilledAt(Tracked(ss), minX, minY, w, h, x, y);
    if c in Tracked(ss) {
      TrackedTopmost(ss, c);
    }
  }
}
