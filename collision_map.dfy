/**
 * The tile collision map (src/collision/map.rs): a row-major grid of tile
 * kinds anchored at a world-space origin, with the circle queries the
 * character controller uses to keep its collider off blocking tiles.
 */
module CollisionMaps {
  import opened Wrappers
  import opened Geometry
  import opened TileTypes
  import opened IntArith

  datatype GridPos = GridPos(x: int, y: int)

  /** The grid cell whose half-open span [k*ts, (k+1)*ts) contains `offset`. */
  function CellOf(offset: real, tileSize: real): (k: int)
    requires tileSize > 0.0
    ensures k as real * tileSize <= offset < (k + 1) as real * tileSize
  {
    var k := (offset / tileSize).Floor;
    DivLe(offset, k as real, tileSize);
    DivLt(offset, (k + 1) as real, tileSize);
    k
  }

  /** `CellOf` is the only cell whose span contains the offset. */
  lemma CellOfUnique(offset: real, tileSize: real, k: int)
    requires tileSize > 0.0
    requires k as real * tileSize <= offset < (k + 1) as real * tileSize
    ensures CellOf(offset, tileSize) == k
  {
    LeDiv(offset, k as real, tileSize);
    LtDiv(offset, (k + 1) as real, tileSize);
  }

  lemma CellOfMono(a: real, b: real, tileSize: real)
    requires tileSize > 0.0 && a <= b
    ensures CellOf(a, tileSize) <= CellOf(b, tileSize)
  {
    DivMono(a, b, tileSize);
  }

  lemma DivMono(a: real, b: real, t: real)
    requires t > 0.0 && a <= b
    ensures a / t <= b / t
  {
    DivMul(a, t);
    DivMul(b, t);
  }

  class CollisionMap {
    var tiles: seq<TileType>
    const width: int
    const height: int
    const tileSize: real
    const originX: real
    const originY: real

    ghost predicate Valid()
      reads this
    {
      width * height >= 0 && |tiles| == width * height && tileSize > 0.0
    }

    /** `CollisionMap::new`: a `width` by `height` grid of Empty tiles. */
    constructor (width: int, height: int, tileSize: real, originX: real, originY: real)
      requires width * height >= 0 && tileSize > 0.0
      ensures Valid()
      ensures this.width == width && this.height == height && this.tileSize == tileSize
      ensures this.originX == originX && this.originY == originY
      ensures |tiles| == width * height
      ensures forall i | 0 <= i < |tiles| :: tiles[i] == Empty
    {
      this.width := width;
      this.height := height;
      this.tileSize := tileSize;
      this.originX := originX;
      this.originY := originY;
      tiles := seq(width * height, _ => Empty);
    }

    predicate InBounds(x: int, y: int) {
      0 <= x < width && 0 <= y < height
    }

    /** The flat index of cell (x, y): rows are stored one after another. */
    function XyToIdx(x: int, y: int): (i: int)
      ensures InBounds(x, y) ==> 0 <= i < width * height
    {
      if InBounds(x, y) then RowMajorInRange(width, height, x, y); y * width + x
      else y * width + x
    }

    /** Distinct in-bounds cells have distinct flat indices. */
    lemma XyToIdxInjective(x1: int, y1: int, x2: int, y2: int)
      requires InBounds(x1, y1) && InBounds(x2, y2)
      requires XyToIdx(x1, y1) == XyToIdx(x2, y2)
      ensures x1 == x2 && y1 == y2
    {
      DivModCell(width, x1, y1);
      DivModCell(width, x2, y2);
    }

    /** Every flat index belongs to exactly the in-bounds cell (i % width, i / width). */
    lemma IdxToXy(i: int)
      requires Valid() && width >= 0 && 0 <= i < |tiles|
      ensures width > 0 && InBounds(i % width, i / width)
      ensures XyToIdx(i % width, i / width) == i
    {
      assert width != 0;
      var x, y := i % width, i / width;
      assert i == y * width + x;
      if y >= height {
        MulGe(y, height, width);
      }
    }

    /** `world_to_grid`: the cell containing a world position. */
    function WorldToGrid(p: Vec2): (g: GridPos)
      requires tileSize > 0.0
      ensures InCell(p, g.x, g.y)
    {
      GridPos(CellOf(p.x - originX, tileSize), CellOf(p.y - originY, tileSize))
    }

    /** `p` lies in the half-open square of cell (gx, gy). */
    ghost predicate InCell(p: Vec2, gx: int, gy: int) {
      gx as real * tileSize <= p.x - originX < (gx + 1) as real * tileSize &&
      gy as real * tileSize <= p.y - originY < (gy + 1) as real * tileSize
    }

    /** `grid_to_world`: the world position of a cell's centre. */
    function GridToWorld(gx: int, gy: int): Vec2 {
      Vec2(originX + (gx as real + 0.5) * tileSize, originY + (gy as real + 0.5) * tileSize)
    }

    /** The centre of a cell converts back to that cell, for every integer cell. */
    lemma GridRoundTrip(gx: int, gy: int)
      requires tileSize > 0.0
      ensures WorldToGrid(GridToWorld(gx, gy)) == GridPos(gx, gy)
    {
      CentreInCell(gx, tileSize);
      CentreInCell(gy, tileSize);
      CellOfUnique(GridToWorld(gx, gy).x - originX, tileSize, gx);
      CellOfUnique(GridToWorld(gx, gy).y - originY, tileSize, gy);
    }

    static lemma CentreInCell(k: int, tileSize: real)
      requires tileSize > 0.0
      ensures k as real * tileSize <= (k as real + 0.5) * tileSize < (k + 1) as real * tileSize
    {
      MulLe(k as real, k as real + 0.5, tileSize);
      MulLt(k as real + 0.5, (k + 1) as real, tileSize);
    }

    /** `get_tile`: the stored kind of an in-bounds cell, None elsewhere. */
    function GetTile(x: int, y: int): (t: Option<TileType>)
      reads this
      requires Valid()
      ensures t.None? <==> !InBounds(x, y)
      ensures InBounds(x, y) ==> t == Some(tiles[XyToIdx(x, y)])
    {
      if InBounds(x, y) then Some(tiles[XyToIdx(x, y)]) else None
    }

    /** `set_tile`: overwrite one in-bounds cell; out of bounds nothing changes. */
    method SetTile(x: int, y: int, tile: TileType)
      requires Valid()
      modifies this`tiles
      ensures Valid()
      ensures InBounds(x, y) ==> tiles == old(tiles)[XyToIdx(x, y) := tile]
      ensures !InBounds(x, y) ==> tiles == old(tiles)
      ensures forall x', y' :: GetTile(x', y') ==
                                (if x' == x && y' == y && InBounds(x, y) then Some(tile) else old(GetTile(x', y')))
    {
      if InBounds(x, y) {
        var idx := XyToIdx(x, y);
        tiles := tiles[idx := tile];
        forall x', y' | InBounds(x', y') && (x' != x || y' != y)
          ensures XyToIdx(x', y') != idx
        {
          if XyToIdx(x', y') == idx {
            XyToIdxInjective(x', y', x, y);
          }
        }
      }
    }

    /** `is_walkable`: an in-bounds cell holding a walkable kind. */
    predicate IsWalkable(x: int, y: int)
      reads this
      requires Valid()
    {
      match GetTile(x, y)
      case Some(t) => TileTypes.IsWalkable(t)
      case None => false
    }

    /** Cells off the grid are never walkable. */
    lemma OutsideNotWalkable(x: int, y: int)
      requires Valid() && !InBounds(x, y)
      ensures GetTile(x, y) == None && !IsWalkable(x, y)
    {
    }

    predicate IsWorldPosWalkable(p: Vec2)
      reads this
      requires Valid()
    {
      var g := WorldToGrid(p);
      IsWalkable(g.x, g.y)
    }

    /** The closed square of world points covered by cell (gx, gy). */
    ghost predicate InTileBox(q: Vec2, gx: int, gy: int) {
      originX + gx as real * tileSize <= q.x <= originX + gx as real * tileSize + tileSize &&
      originY + gy as real * tileSize <= q.y <= originY + gy as real * tileSize + tileSize
    }

    /** The point of cell (gx, gy)'s square nearest to `center`. */
    function ClosestInTile(center: Vec2, gx: int, gy: int): (c: Vec2)
      requires tileSize > 0.0
      ensures InTileBox(c, gx, gy)
    {
      var minX := originX + gx as real * tileSize;
      var minY := originY + gy as real * tileSize;
      Vec2(Clamp(center.x, minX, minX + tileSize), Clamp(center.y, minY, minY + tileSize))
    }

    /** `circle_intersects_tile`: the nearest point of the square is within the radius. */
    predicate CircleIntersectsTile(center: Vec2, radius: real, gx: int, gy: int)
      requires tileSize > 0.0
    {
      DistanceSquared(center, ClosestInTile(center, gx, gy)) <= Sq(radius)
    }

    /**
     * The circle test holds exactly when some point of the cell's closed square
     * is at distance at most |radius| from the centre (touching counts).
     */
    lemma CircleIntersectsTileIff(center: Vec2, radius: real, gx: int, gy: int)
      requires tileSize > 0.0
      ensures CircleIntersectsTile(center, radius, gx, gy) <==>
        exists q: Vec2 :: InTileBox(q, gx, gy) && DistanceSquared(center, q) <= Sq(radius)
    {
      var c := ClosestInTile(center, gx, gy);
      if CircleIntersectsTile(center, radius, gx, gy) {
        assert InTileBox(c, gx, gy) && DistanceSquared(center, c) <= Sq(radius);
      }
      forall q: Vec2 | InTileBox(q, gx, gy)
        ensures DistanceSquared(center, q) >= DistanceSquared(center, c)
      {
        ClosestIsNearest(center, gx, gy, q);
      }
    }

    lemma ClosestIsNearest(center: Vec2, gx: int, gy: int, q: Vec2)
      requires tileSize > 0.0 && InTileBox(q, gx, gy)
      ensures DistanceSquared(center, q) >= DistanceSquared(center, ClosestInTile(center, gx, gy))
    {
      var minX := originX + gx as real * tileSize;
      var minY := originY + gy as real * tileSize;
      ClampNearest(center.x, minX, minX + tileSize, q.x);
      ClampNearest(center.y, minY, minY + tileSize, q.y);
    }

    /** Squaring the radius makes the test blind to its sign. */
    lemma CircleIntersectsTileNegated(center: Vec2, radius: real, gx: int, gy: int)
      requires tileSize > 0.0
      ensures CircleIntersectsTile(center, -radius, gx, gy) == CircleIntersectsTile(center, radius, gx, gy)
    {
      SqNeg(radius);
    }

    /** `is_within_bounds`: the circle's bounding square lies inside the grid's rectangle. */
    predicate IsWithinBounds(center: Vec2, radius: real) {
      center.x - radius >= originX && center.x + radius <= originX + width as real * tileSize &&
      center.y - radius >= originY && center.y + radius <= originY + height as real * tileSize
    }

    /** The candidate cell range `is_circle_clear` scans, per axis. */
    function MinGx(center: Vec2, radius: real): int requires tileSize > 0.0 {
      CellOf(center.x - radius - originX, tileSize)
    }
    function MaxGx(center: Vec2, radius: real): int requires tileSize > 0.0 {
      CellOf(center.x + radius - originX, tileSize)
    }
    function MinGy(center: Vec2, radius: real): int requires tileSize > 0.0 {
      CellOf(center.y - radius - originY, tileSize)
    }
    function MaxGy(center: Vec2, radius: real): int requires tileSize > 0.0 {
      CellOf(center.y + radius - originY, tileSize)
    }

    ghost predicate IsCandidate(center: Vec2, radius: real, gx: int, gy: int)
      requires tileSize > 0.0
    {
      MinGx(center, radius) <= gx <= MaxGx(center, radius) &&
      MinGy(center, radius) <= gy <= MaxGy(center, radius)
    }

    /** The radius a blocking tile of kind `t` is checked against. */
    function EffectiveRadius(radius: real, t: TileType): real {
      radius + CollisionAdjustment(t) * tileSize
    }

    /** One scanned cell passes: it is on the grid and not a blocking tile the circle reaches. */
    predicate CellClear(center: Vec2, radius: real, gx: int, gy: int)
      reads this
      requires Valid()
    {
      match GetTile(gx, gy)
      case None => false
      case Some(t) =>
        TileTypes.IsWalkable(t) || !CircleIntersectsTile(center, EffectiveRadius(radius, t), gx, gy)
    }

    /** What `is_circle_clear` decides. */
    ghost predicate CircleClear(center: Vec2, radius: real)
      reads this
      requires Valid()
    {
      IsWithinBounds(center, radius) &&
      if radius <= 0.0 then IsWorldPosWalkable(center)
      else
        forall gy, gx | MinGy(center, radius) <= gy <= MaxGy(center, radius) &&
                        MinGx(center, radius) <= gx <= MaxGx(center, radius) ::
          CellClear(center, radius, gx, gy)
    }

    /** `is_circle_clear`: scan the candidate cells row by row, stopping at the first failure. */
    method IsCircleClear(center: Vec2, radius: real) returns (clear: bool)
      requires Valid()
      ensures clear == CircleClear(center, radius)
    {
      if !IsWithinBounds(center, radius) {
        return false;
      }
      if radius <= 0.0 {
        return IsWorldPosWalkable(center);
      }
      var minGx, maxGx := MinGx(center, radius), MaxGx(center, radius);
      var minGy, maxGy := MinGy(center, radius), MaxGy(center, radius);
      CellOfMono(center.x - radius - originX, center.x + radius - originX, tileSize);
      CellOfMono(center.y - radius - originY, center.y + radius - originY, tileSize);
      var gy := minGy;
      while gy <= maxGy
        invariant minGy <= gy <= maxGy + 1
        invariant forall y, x | minGy <= y < gy && minGx <= x <= maxGx :: CellClear(center, radius, x, y)
      {
        var rowClear := ScanRow(center, radius, gy, minGx, maxGx);
        if !rowClear {
          return false;
        }
        gy := gy + 1;
      }
      return true;
    }

    /** The inner loop of `is_circle_clear`: one row of candidate cells, left to right. */
    method ScanRow(center: Vec2, radius: real, gy: int, minGx: int, maxGx: int) returns (clear: bool)
      requires Valid()
      ensures clear <==> forall x | minGx <= x <= maxGx :: CellClear(center, radius, x, gy)
    {
      var gx := minGx;
      while gx <= maxGx
        invariant gx >= minGx && (minGx <= maxGx ==> gx <= maxGx + 1)
        invariant forall x | minGx <= x < gx :: CellClear(center, radius, x, gy)
      {
        if !InBounds(gx, gy) {
          assert !CellClear(center, radius, gx, gy);
          return false;
        }
        var tile := GetTile(gx, gy).value;
        if !TileTypes.IsWalkable(tile) {
          var effectiveRadius := radius + CollisionAdjustment(tile) * tileSize;
          if CircleIntersectsTile(center, effectiveRadius, gx, gy) {
            assert !CellClear(center, radius, gx, gy);
            return false;
          }
        }
        gx := gx + 1;
      }
      return true;
    }

    /** A circle whose bounding square leaves the grid is never clear. */
    lemma OutOfBoundsNotClear(center: Vec2, radius: real)
      requires Valid() && !IsWithinBounds(center, radius)
      ensures !CircleClear(center, radius)
    {
    }

    /** With a radius of zero or less only the centre's cell is consulted. */
    lemma PointQuery(center: Vec2, radius: real)
      requires Valid() && radius <= 0.0 && IsWithinBounds(center, radius)
      ensures CircleClear(center, radius) == IsWorldPosWalkable(center)
    {
    }

    /** A clear circle's candidate cells are all on the grid. */
    lemma ClearCandidatesInBounds(center: Vec2, radius: real, gx: int, gy: int)
      requires Valid() && radius > 0.0 && CircleClear(center, radius)
      requires IsCandidate(center, radius, gx, gy)
      ensures InBounds(gx, gy)
    {
      assert CellClear(center, radius, gx, gy);
    }

    /**
     * A clear circle keeps every blocking candidate cell strictly farther than
     * its effective radius: no point of the cell's square is within it.
     */
    lemma ClearCandidateNotHit(center: Vec2, radius: real, gx: int, gy: int, q: Vec2)
      requires Valid() && radius > 0.0 && CircleClear(center, radius)
      requires IsCandidate(center, radius, gx, gy)
      requires InBounds(gx, gy) && !TileTypes.IsWalkable(GetTile(gx, gy).value)
      requires InTileBox(q, gx, gy)
      ensures DistanceSquared(center, q) > Sq(EffectiveRadius(radius, GetTile(gx, gy).value))
    {
      assert CellClear(center, radius, gx, gy);
      CircleIntersectsTileIff(center, EffectiveRadius(radius, GetTile(gx, gy).value), gx, gy);
    }

    /**
     * A clear circle is sound for every blocking cell of the grid, scanned or
     * not, as long as the effective radius is no larger in magnitude than the
     * raw one: no point of the cell lies strictly inside the effective circle.
     */
    lemma ClearNoBlockedOverlap(center: Vec2, radius: real, gx: int, gy: int, q: Vec2)
      requires Valid() && radius > 0.0 && CircleClear(center, radius)
      requires InBounds(gx, gy) && !TileTypes.IsWalkable(GetTile(gx, gy).value)
      requires Sq(EffectiveRadius(radius, GetTile(gx, gy).value)) <= Sq(radius)
      requires InTileBox(q, gx, gy)
      ensures DistanceSquared(center, q) >= Sq(EffectiveRadius(radius, GetTile(gx, gy).value))
    {
      if IsCandidate(center, radius, gx, gy) {
        ClearCandidateNotHit(center, radius, gx, gy, q);
      } else {
        NonCandidateOutside(center, radius, gx, gy, q);
      }
    }

    /** Points of a cell outside the candidate range are at least `radius` from the centre. */
    lemma NonCandidateOutside(center: Vec2, radius: real, gx: int, gy: int, q: Vec2)
      requires tileSize > 0.0 && radius > 0.0
      requires !IsCandidate(center, radius, gx, gy) && InTileBox(q, gx, gy)
      ensures DistanceSquared(center, q) >= Sq(radius)
    {
      if DistanceSquared(center, q) < Sq(radius) {
        AxisWithinRadius(center, q, radius);
        NearPointIsCandidate(center, radius, gx, gy, q);
      }
    }

    /** A cell with a point inside the circle's open bounding square is in the candidate range. */
    lemma NearPointIsCandidate(center: Vec2, radius: real, gx: int, gy: int, q: Vec2)
      requires tileSize > 0.0 && InTileBox(q, gx, gy)
      requires center.x - radius < q.x < center.x + radius
      requires center.y - radius < q.y < center.y + radius
      ensures IsCandidate(center, radius, gx, gy)
    {
      AxisCandidate(center.x, radius, originX, q.x, gx, tileSize);
      AxisCandidate(center.y, radius, originY, q.y, gy, tileSize);
    }

    /** On one axis: a cell spanning a point within (c - r, c + r) lies in the floor range. */
    static lemma AxisCandidate(c: real, r: real, origin: real, v: real, g: int, tileSize: real)
      requires tileSize > 0.0
      requires c - r < v < c + r
      requires origin + g as real * tileSize <= v <= origin + g as real * tileSize + tileSize
      ensures CellOf(c - r - origin, tileSize) <= g <= CellOf(c + r - origin, tileSize)
    {
      assert c - r - origin < (g + 1) as real * tileSize;
      LtDiv(c - r - origin, (g + 1) as real, tileSize);
      LeDiv(c + r - origin, g as real, tileSize);
    }

    static lemma AxisWithinRadius(center: Vec2, q: Vec2, radius: real)
      requires radius > 0.0 && DistanceSquared(center, q) < Sq(radius)
      ensures center.x - radius < q.x < center.x + radius
      ensures center.y - radius < q.y < center.y + radius
    {
      var dx, dy := center.x - q.x, center.y - q.y;
      assert DistanceSquared(center, q) == Sq(dx) + Sq(dy);
      assert Sq(dx) < Sq(radius) && Sq(dy) < Sq(radius);
      SqLessAbs(dx, radius);
      SqLessAbs(dy, radius);
    }

    /** A circle of radius at least a tenth of a tile has |effective radius| <= radius for every kind. */
    lemma EffectiveRadiusBounded(radius: real, t: TileType)
      requires tileSize > 0.0 && 10.0 * radius >= tileSize
      ensures Sq(EffectiveRadius(radius, t)) <= Sq(radius)
    {
      var eff := EffectiveRadius(radius, t);
      assert radius - 0.2 * tileSize <= eff <= radius;
      if eff >= 0.0 {
        SqMono(radius, eff);
      } else {
        SqMono(radius, -eff);
        SqNeg(eff);
      }
    }

    /** A candidate cell off the grid makes the circle not clear. */
    lemma CandidateOffGrid(center: Vec2, radius: real, gx: int, gy: int)
      requires Valid() && radius > 0.0 && IsCandidate(center, radius, gx, gy) && !InBounds(gx, gy)
      ensures !CircleClear(center, radius)
    {
      assert !CellClear(center, radius, gx, gy);
    }

    /** With a positive radius the candidate range is non-empty on both axes. */
    lemma CandidateRangeNonEmpty(center: Vec2, radius: real)
      requires tileSize > 0.0 && radius > 0.0
      ensures MinGx(center, radius) <= MaxGx(center, radius)
      ensures MinGy(center, radius) <= MaxGy(center, radius)
    {
      CellOfMono(center.x - radius - originX, center.x + radius - originX, tileSize);
      CellOfMono(center.y - radius - originY, center.y + radius - originY, tileSize);
    }

    /**
     * A circle that exactly touches the right edge of the grid is rejected:
     * the candidate column `width` is off the grid.
     */
    lemma TouchingRightEdgeNotClear(center: Vec2, radius: real)
      requires Valid() && radius > 0.0
      requires center.x + radius == originX + width as real * tileSize
      ensures !CircleClear(center, radius)
    {
      CellOfUnique(center.x + radius - originX, tileSize, width);
      assert MaxGx(center, radius) == width;
      CandidateRangeNonEmpty(center, radius);
      CandidateOffGrid(center, radius, width, MinGy(center, radius));
    }

    /** Likewise for a circle touching the top edge: row `height` is off the grid. */
    lemma TouchingTopEdgeNotClear(center: Vec2, radius: real)
      requires Valid() && radius > 0.0
      requires center.y + radius == originY + height as real * tileSize
      ensures !CircleClear(center, radius)
    {
      CellOfUnique(center.y + radius - originY, tileSize, height);
      assert MaxGy(center, radius) == height;
      CandidateRangeNonEmpty(center, radius);
      CandidateOffGrid(center, radius, MinGx(center, radius), height);
    }

    // ---- sweep_circle ----

    /** Quarter-tile subdivision: `max(1, ceil(len / (tile_size / 4)))`. */
    function SweepSteps(len: real): (n: int)
      requires tileSize > 0.0
      ensures n >= 1
      ensures n as real * (tileSize * 0.25) >= len
    {
      var c := Ceil(len / (tileSize * 0.25));
      CeilScaled(len, tileSize * 0.25, c);
      if c >= 1 then c else 1
    }

    static lemma CeilScaled(len: real, step: real, c: int)
      requires step > 0.0 && len / step <= c as real
      ensures c as real * step >= len
    {
      MulLe(len / step, c as real, step);
    }

    /**
     * One iteration of the sweep from `pos`: the full candidate step, else the
     * X-only slide, else the Y-only slide, whichever is clear first; None when
     * all three are blocked.
     */
    ghost function StepFrom(pos: Vec2, step: Vec2, radius: real): Option<Vec2>
      reads this
      requires Valid()
    {
      var candidate := Add(pos, step);
      var tryX := Vec2(candidate.x, pos.y);
      var tryY := Vec2(pos.x, candidate.y);
      if CircleClear(candidate, radius) then Some(candidate)
      else if CircleClear(tryX, radius) then Some(tryX)
      else if CircleClear(tryY, radius) then Some(tryY)
      else None
    }

    /** Up to `remaining` iterations, stopping at the first fully blocked one. */
    ghost function SweepFrom(pos: Vec2, step: Vec2, radius: real, remaining: nat): Vec2
      reads this
      requires Valid()
      decreases remaining
    {
      if remaining == 0 then pos
      else match StepFrom(pos, step, radius)
        case None => pos
        case Some(next) => SweepFrom(next, step, radius, remaining - 1)
    }

    /** The position `sweep_circle(start, end, radius)` reaches, given |end - start|. */
    ghost function Swept(start: Vec2, end: Vec2, radius: real, len: real): Vec2
      reads this
      requires Valid()
    {
      if len < 0.001 then start
      else
        var steps := SweepSteps(len);
        SweepFrom(start, Scale(Sub(end, start), 1.0 / steps as real), radius, steps)
    }

    /** Every accepted position passed the circle test: the sweep ends where it began or somewhere clear. */
    lemma {:induction false} SweepFromClear(pos: Vec2, step: Vec2, radius: real, remaining: nat)
      requires Valid()
      ensures SweepFrom(pos, step, radius, remaining) == pos ||
              CircleClear(SweepFrom(pos, step, radius, remaining), radius)
      decreases remaining
    {
      if remaining > 0 {
        match StepFrom(pos, step, radius)
        case None =>
        case Some(next) =>
          SweepFromClear(next, step, radius, remaining - 1);
      }
    }

    /** The whole sweep ends where it began or at a clear position. */
    lemma SweptClear(start: Vec2, end: Vec2, radius: real, len: real)
      requires Valid()
      ensures Swept(start, end, radius, len) == start || CircleClear(Swept(start, end, radius, len), radius)
    {
      if len >= 0.001 {
        SweepFromClear(start, Scale(Sub(end, start), 1.0 / SweepSteps(len) as real), radius, SweepSteps(len));
      }
    }

    /** Each quarter-tile step is at most a quarter tile long. */
    lemma SweepStepBounded(start: Vec2, end: Vec2, len: real)
      requires tileSize > 0.0 && IsLengthOf(len, Sub(end, start))
      ensures 16.0 * LengthSquared(Scale(Sub(end, start), 1.0 / SweepSteps(len) as real)) <= Sq(tileSize)
    {
      var n := SweepSteps(len) as real;
      ScaledLength(Sub(end, start), len, n);
      QuarterStep(len, n, tileSize);
    }

    /** Dividing a vector by `n` divides its length by `n`. */
    static lemma ScaledLength(d: Vec2, len: real, n: real)
      requires n > 0.0 && IsLengthOf(len, d)
      ensures LengthSquared(Scale(d, 1.0 / n)) == Sq(len / n)
    {
      InvMul(len, n);
      LengthSquaredScaleOf(d, 1.0 / n, len);
    }

    /** A length cut into `n` pieces no longer than a quarter tile gives pieces whose square is at most a sixteenth of the tile's. */
    static lemma QuarterStep(len: real, n: real, ts: real)
      requires len >= 0.0 && n >= 1.0 && ts > 0.0 && n * (ts * 0.25) >= len
      ensures 16.0 * Sq(len / n) <= Sq(ts)
    {
      var quarter := ts * 0.25;
      DivLeOfMul(len, quarter, n);
      LeDivNonNeg(len, n);
      SqMono(quarter, len / n);
      SqMul(0.25, ts);
      assert Sq(0.25) == 0.0625;
    }

    static lemma LeDivNonNeg(a: real, n: real)
      requires a >= 0.0 && n > 0.0
      ensures a / n >= 0.0
    {
    }

    /** A sweep with no displacement returns its start. */
    lemma SweepZero(p: Vec2, radius: real, len: real)
      requires Valid() && IsLengthOf(len, Sub(p, p))
      ensures Swept(p, p, radius, len) == p
    {
      LengthZero(len, Sub(p, p));
    }

    /** `sweep_circle`: walk towards `end` in equal steps, sliding along blocked axes. */
    method SweepCircle(start: Vec2, end: Vec2, radius: real, len: real) returns (pos: Vec2)
      requires Valid() && IsLengthOf(len, Sub(end, start))
      ensures pos == Swept(start, end, radius, len)
      ensures pos == start || CircleClear(pos, radius)
    {
      var delta := Sub(end, start);
      if len < 0.001 {
        return start;
      }
      var maxStep := tileSize * 0.25;
      var c := Ceil(len / maxStep);
      var steps := if c >= 1 then c else 1;
      assert steps == SweepSteps(len);
      var stepVec := Scale(delta, 1.0 / steps as real);
      pos := start;
      var i := 0;
      while i < steps
        invariant 0 <= i <= steps
        invariant SweepFrom(pos, stepVec, radius, steps - i) == SweepFrom(start, stepVec, radius, steps)
        invariant pos == start || CircleClear(pos, radius)
      {
        var candidate := Add(pos, stepVec);
        var clear := IsCircleClear(candidate, radius);
        if clear {
          pos := candidate;
        } else {
          var tryX := Vec2(candidate.x, pos.y);
          clear := IsCircleClear(tryX, radius);
          if clear {
            pos := tryX;
          } else {
            var tryY := Vec2(pos.x, candidate.y);
            clear := IsCircleClear(tryY, radius);
            if clear {
              pos := tryY;
            } else {
              break;
            }
          }
        }
        i := i + 1;
      }
    }
  }
}
