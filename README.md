# A verified model of a Bevy tile-world game

This project specifies and proves the game logic of a small 2D Bevy game written in Rust. In the game, a character walks over a procedurally generated tile map, collects plants, pauses the game and casts particle effects. The model covers four groups.

- **Collision world.**
  - The classification of tile kinds (`TileTypes`).
  - The tile grid `CollisionMap`, with its index, bounds and world/grid arithmetic, the circle-against-tile test, the candidate scan of `is_circle_clear` and the quarter-tile sweep of `sweep_circle` (`CollisionMaps`).
  - The system that builds the map from the placed tiles, keeping the topmost tile per cell and then turning water next to walkable ground into shore (`CollisionSystems`).
  - The system that rewrites a character's velocity when its sweep is cut short (`CharacterCollider`).
- **Characters.**
  - The locomotion state machine (`CharacterStates`, `CharacterInput`).
  - Facing selection (`CharacterFacing`).
  - Velocity selection and integration (`CharacterPhysics`).
  - The animation clip arithmetic and the animation systems (`CharacterAnimation`).
  - The largest sheet row of a configuration (`CharacterConfig`).
  - The flag-based movement systems (`CharacterMovement`).
  - The older, stand-alone player with its fixed sprite sheet (`LegacyPlayer`).
- **Tables and containers.**
  - The 61-entry tile atlas table and its lookups (`Tilemap`).
  - The inventory counter and its summary line (`Inventories`).
  - The pickup rule (`InventoryPickup`).
  - The Loading / Playing / Paused states (`GameStates`).
- **Particles.**
  - The particle and emitter components and their builders (`ParticleComponents`).
  - The emitter flag machine, the particle lifetime rule and the cleanup of spent emitters (`ParticleSystems`).

Shared modules:
- `Geometry`: vectors over real numbers and the arithmetic facts the proofs use.
- `IntArith`: row-major index arithmetic.
- `Text`: the string order, decimal formatting, joining and sorting.
- `Keys`: the keyboard state.
- `GameConfig`: the constants of `src/config.rs`.
- `Wrappers`: `Option`.

How the engine is represented:
- **Systems and queries.**
  - Each ECS system is a method called once per frame.
  - A query's components are an `array` of values updated in place, or a `seq` when the system only reads them.
  - `single_mut` succeeding is "the array has exactly one element".
- **Resources and commands.**
  - An optional resource is an `Option` parameter.
  - The inventory and the collision map, whose fields systems update, are classes.
  - `commands.despawn` and `spawn` are returned lists of entity indices.
- **Time, input and engine state as parameters.**
  - The frame time `dt` and the keyboard state are parameters.
  - A Bevy `Timer` is a "fired this frame" boolean per entity.
  - Whether an asset is loaded is a set of loaded handles.
  - `HashMap` iteration order is an arbitrary choice (`:|`), so every stated result holds for every order.
- **Square roots.** `Vec2::length` and `normalize` need a square root. They come in as a `length` function parameter (or a length value), with the precondition that it is a length: non-negative, and its square is the squared length.

## Model

| member | source | states |
|---|---|---|
| TileTypes.CollisionAdjustment | src/collision/tile_type.rs:35-40 | -0.2 exactly for Tree and Rock, 0 for every other kind; always in [-0.2, 0]; a non-zero adjustment only on non-walkable kinds |
| TileTypes.WalkableKinds | src/collision/tile_type.rs:29-31 | a kind is non-walkable exactly when it is Water, Tree or Rock, and walkable exactly when it is Empty, Dirt, Grass, YellowGrass or Shore |
| TileTypes.DefaultIsWalkable | src/collision/tile_type.rs:3-7 | the default kind is Empty and it is walkable |
| TileTypes.NewTileMarker | src/collision/tile_type.rs:48-51 | the marker carries the given kind |
| CollisionMaps.CellOf | src/collision/map.rs:84-85 | the floored cell index k of an offset satisfies k*ts <= offset < (k+1)*ts |
| CollisionMaps.CellOfUnique | src/collision/map.rs:84-85 | the cell containing an offset is unique |
| CollisionMaps.CellOfMono | src/collision/map.rs:231-234 | floor-to-cell is monotone, so the candidate range is ordered |
| CollisionMaps.CollisionMap.constructor | src/collision/map.rs:35-48 | exactly width*height tiles, all Empty, with the given metrics stored |
| CollisionMaps.CollisionMap.XyToIdx | src/collision/map.rs:59-61 | an in-bounds cell's row-major index lies in [0, width*height) |
| CollisionMaps.CollisionMap.XyToIdxInjective | src/collision/map.rs:59-74 | distinct in-bounds cells have distinct indices |
| CollisionMaps.CollisionMap.IdxToXy | src/collision/map.rs:59-74 | every index of the tile array is the index of exactly the in-bounds cell (i % w, i / w) |
| CollisionMaps.CollisionMap.WorldToGrid | src/collision/map.rs:83-87 | the returned cell's half-open square contains the world point |
| CollisionMaps.CollisionMap.GridRoundTrip | src/collision/map.rs:83-105 | converting a cell's centre back gives that cell, for every integer cell |
| CollisionMaps.CollisionMap.GetTile | src/collision/map.rs:115-121 | None exactly off the grid; otherwise the tile stored at the cell's index |
| CollisionMaps.CollisionMap.SetTile | src/collision/map.rs:129-134 | an in-bounds write changes that cell only and `get_tile` then returns it; off the grid nothing changes |
| CollisionMaps.CollisionMap.OutsideNotWalkable | src/collision/map.rs:144-146 | off the grid `get_tile` is None and the cell is not walkable |
| CollisionMaps.CollisionMap.ClosestInTile | src/collision/map.rs:172-183 | the clamped point lies in the cell's closed square |
| CollisionMaps.CollisionMap.ClosestIsNearest | src/collision/map.rs:180-183 | no point of the square is nearer the centre than the clamped point |
| CollisionMaps.CollisionMap.CircleIntersectsTileIff | src/collision/map.rs:170-187 | the test holds exactly when some point of the closed square is within |radius| (touching counts) |
| CollisionMaps.CollisionMap.CircleIntersectsTileNegated | src/collision/map.rs:186 | a negated radius gives the same answer |
| CollisionMaps.CollisionMap.IsCircleClear | src/collision/map.rs:219-260 | the scan returns exactly the clear-circle condition: inside the grid rectangle and, for r <= 0, the centre walkable, else every candidate cell on the grid and not a blocking tile reached by its effective radius |
| CollisionMaps.CollisionMap.ScanRow | src/collision/map.rs:238-257 | one row is clear exactly when each of its candidate cells passes |
| CollisionMaps.CollisionMap.OutOfBoundsNotClear | src/collision/map.rs:197-223 | a circle whose bounding square leaves the grid is not clear |
| CollisionMaps.CollisionMap.PointQuery | src/collision/map.rs:226-228 | with radius <= 0 the answer is the walkability of the centre's cell |
| CollisionMaps.CollisionMap.ClearCandidatesInBounds | src/collision/map.rs:231-242 | when clear, every candidate cell is on the grid |
| CollisionMaps.CollisionMap.ClearCandidateNotHit | src/collision/map.rs:245-254 | when clear, every point of a blocking candidate cell is strictly farther than its effective radius |
| CollisionMaps.CollisionMap.ClearNoBlockedOverlap | src/collision/map.rs:231-259 | when clear and the effective radius is no larger than the raw one, no blocking cell of the grid, scanned or not, has a point strictly inside the effective circle |
| CollisionMaps.CollisionMap.NonCandidateOutside | src/collision/map.rs:231-234 | points of cells outside the raw candidate range are at least `radius` from the centre |
| CollisionMaps.CollisionMap.NearPointIsCandidate | src/collision/map.rs:231-234 | a cell holding a point of the circle's open bounding square is a candidate |
| CollisionMaps.CollisionMap.EffectiveRadiusBounded | src/collision/map.rs:249-250 | for radius >= tile_size/10 the effective radius never exceeds the raw one in magnitude |
| CollisionMaps.CollisionMap.CandidateOffGrid | src/collision/map.rs:240-242 | an off-grid candidate makes the circle not clear |
| CollisionMaps.CollisionMap.CandidateRangeNonEmpty | src/collision/map.rs:237-238 | with a positive radius both candidate ranges are non-empty |
| CollisionMaps.CollisionMap.TouchingRightEdgeNotClear | src/collision/map.rs:205-242 | a circle exactly touching the right edge is rejected, because candidate column `width` is off the grid |
| CollisionMaps.CollisionMap.TouchingTopEdgeNotClear | src/collision/map.rs:205-242 | likewise at the top edge with row `height` |
| CollisionMaps.CollisionMap.SweepSteps | src/collision/map.rs:295-299 | at least one step, and enough quarter-tile steps to cover the length |
| CollisionMaps.CollisionMap.SweepFromClear | src/collision/map.rs:308-338 | the steps end where they began or at a position that passed the circle test |
| CollisionMaps.CollisionMap.SweptClear | src/collision/map.rs:284-341 | the sweep returns `start` or a clear position |
| CollisionMaps.CollisionMap.SweepStepBounded | src/collision/map.rs:295-302 | each step is at most a quarter tile long |
| CollisionMaps.CollisionMap.SweepZero | src/collision/map.rs:286-291 | a sweep with no displacement returns its start |
| CollisionMaps.CollisionMap.SweepCircle | src/collision/map.rs:284-341 | the loop reaches the position of the sweep specification (short moves return `start`; full step, else X slide, else Y slide; stop at the first fully blocked step), which is `start` or clear |
| CollisionSystems.CastI32 | src/collision/systems.rs:65-66 | `as i32` keeps in-range values and saturates the rest to the i32 bounds |
| CollisionSystems.GridOriginValue | src/collision/systems.rs:43-44 | the grid origin is the fixed (-400, -288) for a 32-unit 25 by 18 grid, whatever the placements |
| CollisionSystems.PlacementCell | src/collision/systems.rs:65-66 | a placement's absolute cell is a pair of i32 values |
| CollisionSystems.Sight | src/collision/systems.rs:60-66 | a sighting carries the placement's cell, kind and height |
| CollisionSystems.Sightings | src/collision/systems.rs:90-95 | one sighting per placement, every cell in i32 range |
| CollisionSystems.SightingsAt | src/collision/systems.rs:90-95 | sighting `j` is the sighting of placement `j` |
| CollisionSystems.TrackedKeys | src/collision/systems.rs:76-87 | the tracker has an entry exactly for the cells some placement falls into |
| CollisionSystems.TopmostKept | src/collision/systems.rs:77-82 | a topmost sighting stays topmost after a sighting elsewhere or not strictly higher |
| CollisionSystems.TopmostLast | src/collision/systems.rs:79-85 | a sighting strictly above every earlier one of its cell becomes topmost |
| CollisionSystems.TrackedTopmost | src/collision/systems.rs:76-87 | each tracked cell ends with the kind and height of its highest sighting, the first one seen on ties |
| CollisionSystems.AccMin | src/collision/systems.rs:47-48 | the running minimum starts at i32::MAX and is in i32 range once anything was seen |
| CollisionSystems.AccMax | src/collision/systems.rs:47-48 | the running maximum starts at i32::MIN and is in i32 range once anything was seen |
| CollisionSystems.AccBounds | src/collision/systems.rs:69-72 | no sighting lies below the accumulated minimum or above the maximum |
| CollisionSystems.AccAttained | src/collision/systems.rs:69-72 | the accumulated minimum and maximum are coordinates of actual sightings |
| CollisionSystems.AccStep | src/collision/systems.rs:55-88 | one more tile updates the four accumulators and the tracker as the closure does |
| CollisionSystems.Extent | src/collision/systems.rs:98-99 | with any tile at all, width and height are at least 1 |
| CollisionSystems.TrackedCellInRange | src/collision/systems.rs:112-116 | every tracked cell shifted by the minimum is inside the map, so no write is dropped |
| CollisionSystems.CellIn | src/collision/map.rs:115-121 | the value-level cell view is defined exactly on the grid |
| CollisionSystems.MapView | src/collision/map.rs:115-146 | the map's accessors read the same cells as the value-level view |
| CollisionSystems.GridExt | src/collision/map.rs:59-61 | two grids of the same shape that agree on every cell are equal |
| CollisionSystems.Filled | src/collision/systems.rs:102-116 | the filled grid has width*height cells |
| CollisionSystems.FilledAt | src/collision/systems.rs:112-116 | a filled cell holds the tracked kind of its absolute cell, or Empty |
| CollisionSystems.ShorePass | src/collision/systems.rs:145-183 | the pass keeps the grid's size |
| CollisionSystems.ShorePassAt | src/collision/systems.rs:149-183 | a cell becomes Shore exactly when it was Water with a walkable neighbour before the pass; every other cell is kept |
| CollisionSystems.ShoreByConversion | src/collision/systems.rs:153-176 | a cell is Shore by conversion exactly when it was Water and one of its eight neighbours was walkable |
| CollisionSystems.NonWaterUnchanged | src/collision/systems.rs:153-155 | non-Water cells are unchanged |
| CollisionSystems.EnclosedWaterStays | src/collision/systems.rs:170-176 | Water with only blocking or off-grid neighbours stays Water |
| CollisionSystems.ShorePassNotIdempotent | src/collision/systems.rs:145-183 | on the row Grass, Water, Water a second pass converts a further cell, so the pass is not idempotent |
| CollisionSystems.ShorePassNoColumns | src/collision/systems.rs:149-151 | a grid with no columns is unchanged |
| CollisionSystems.ConvertWaterEdgesToShore | src/collision/systems.rs:145-184 | the map's tiles become the pass applied to the tiles before it |
| CollisionSystems.ScanShores | src/collision/systems.rs:146-178 | the side list holds exactly the on-grid Water cells with a walkable neighbour |
| CollisionSystems.WriteShores | src/collision/systems.rs:181-183 | listed cells become Shore and every other cell keeps its tile |
| CollisionSystems.FirstWalkableNeighbour | src/collision/systems.rs:158-176 | true exactly when one of the eight neighbours is walkable |
| CollisionSystems.CollisionMapBuilt.constructor | src/collision/systems.rs:11-12 | the flag starts false |
| CollisionSystems.BuildCollisionMap | src/collision/systems.rs:31-125 | no tiles: no map and the flag untouched; otherwise a fresh map sized from the observed extent at the fixed origin, filled from the tracker shifted by the minimum, with the shoreline pass applied, and the flag set |
| CollisionSystems.ProcessTiles | src/collision/systems.rs:47-95 | the loop leaves the accumulators and tracker of the sightings in query order |
| CollisionSystems.UpdateLayer | src/collision/systems.rs:76-87 | vacant entries are filled; occupied ones are replaced only from strictly higher up |
| CollisionSystems.FilledInsert | src/collision/systems.rs:112-116 | tracking one more cell changes the filled grid at exactly that cell's index |
| CollisionSystems.FillFromTracker | src/collision/systems.rs:112-116 | the remap loop, in any key order, yields the filled grid |
| CollisionSystems.FilledTopmost | src/collision/systems.rs:76-116 | before the pass a cell holds the kind of the topmost placement in its absolute cell, or Empty |
| CharacterStates.GroundedIffNotJumping | src/characters/state.rs:13-19 | `is_grounded` holds exactly for the three non-jumping states |
| CharacterStates.DefaultIsGrounded | src/characters/state.rs:3-10 | the default state is Idle, which is grounded |
| CharacterConfig.AllAnimationTypes | src/characters/config.rs:5-10 | the type list holds every animation type |
| CharacterConfig.LastRow | src/characters/config.rs:35-41 | a definition's last row is its start row, plus three when directional |
| CharacterConfig.MaxLastRow | src/characters/config.rs:33-42 | None exactly when no listed type is defined; otherwise an upper bound of every defined last row that some definition attains |
| CharacterConfig.MaxLastRowOverAllTypes | src/characters/config.rs:33-43 | over all types the maximum exists exactly when the map is non-empty, and bounds every definition |
| CharacterConfig.CalculateMaxAnimationRow | src/characters/config.rs:32-44 | 0 with no animations; otherwise the largest last row, attained by some definition |
| CharacterFacing.FromVelocity | src/characters/facing.rs:23-37 | horizontal exactly when the x magnitude is strictly larger; the zero vector faces Down |
| CharacterFacing.FromVelocityBestAligned | src/characters/facing.rs:23-37 | the chosen facing is at least as aligned with the vector as any other facing |
| CharacterFacing.FromVelocityOfUnit | src/characters/facing.rs:23-37 | each facing's own unit direction is mapped back to it |
| CharacterFacing.DirectionIndex | src/characters/facing.rs:42-49 | the index is below 4 |
| CharacterFacing.FacingOfIndex | src/characters/facing.rs:42-49 | the inverse of the index map on 0..3 |
| CharacterFacing.DirectionIndexBijective | src/characters/facing.rs:42-49 | the index map is injective and inverted by `FacingOfIndex` |
| CharacterInput.KeyAxis | src/characters/input.rs:19-31 | an axis of the summed arrows is -1, 0 or 1 |
| CharacterInput.VerticalKeys | src/characters/input.rs:22-31 | the up and down entries sum to the vertical axis |
| CharacterInput.DownKey | src/characters/input.rs:23-31 | the down entry alone contributes -1 on y when pressed |
| CharacterInput.ReadMovementInputAxes | src/characters/input.rs:17-32 | the summed input is (right minus left, up minus down): opposite arrows cancel |
| CharacterInput.RightKey | src/characters/input.rs:21-31 | adding the right entry to the vertical-axis sum sets x to 1 when ArrowRight is pressed and to 0 otherwise |
| CharacterInput.NoArrowsNoDirection | src/characters/input.rs:17-32 | with no arrow held the direction is zero |
| CharacterInput.DetermineNewState | src/characters/input.rs:44-66 | Jumping exactly when already jumping or a jump is wanted; otherwise Idle exactly without direction, and Running rather than Walking exactly when running is held |
| CharacterInput.GroundedStatesForgotten | src/characters/input.rs:50-65 | from any two grounded states the same inputs give the same next state |
| CharacterInput.HandledInput | src/characters/input.rs:84-104 | the character configuration is kept; the new state is `determine_new_state` of the old state, the arrow direction, shift held and space just pressed; the new velocity is `calculate_velocity` of that new state and direction |
| CharacterInput.HandledInputMotion | src/characters/input.rs:84-104 | towards a direction with no jump under way or asked for, the player walks along the direction at exactly its base speed, or with shift held runs at that walking velocity times the run multiplier |
| CharacterInput.HandledInputFacingAndVelocity | src/characters/input.rs:89-104 | facing changes only for a non-zero direction, to its dominant facing; velocity is non-zero only when walking or running towards a direction |
| CharacterInput.HandlePlayerInput | src/characters/input.rs:68-105 | with exactly one player its components become the handled input; otherwise nothing changes |
| CharacterInput.JumpSettled | src/characters/input.rs:124-137 | the only change is a jump ending to Idle |
| CharacterInput.JumpEndsWhenComplete | src/characters/input.rs:135-137 | a jump ends exactly when the clip is complete at the atlas index |
| CharacterInput.UpdateJumpState | src/characters/input.rs:107-138 | with exactly one player its state becomes the settled state; otherwise nothing changes |
| CharacterPhysics.IsMovingIffPositiveSpeed | src/characters/physics.rs:11-13 | a velocity is moving exactly when its squared length is positive |
| CharacterPhysics.CalculateVelocity | src/characters/physics.rs:16-33 | zero while idle, jumping or without direction |
| CharacterPhysics.WalkingSpeed | src/characters/physics.rs:24-26 | walking moves at exactly the base speed |
| CharacterPhysics.WalkingAlongInput | src/characters/physics.rs:24-26 | walking velocity is a non-negative multiple of the input direction |
| CharacterPhysics.RunningScalesWalking | src/characters/physics.rs:27-31 | running velocity is walking velocity times the run multiplier |
| CharacterPhysics.Applied | src/characters/physics.rs:35-41 | z is kept and a non-moving body stays put |
| CharacterPhysics.AppliedAdditive | src/characters/physics.rs:35-41 | two frames move a body as far as one frame of their total duration |
| CharacterPhysics.ApplyVelocity | src/characters/physics.rs:35-41 | every body's translation advances by its own velocity times `dt` |
| CharacterCollider.DefaultCollider | src/characters/collider.rs:12-19 | the default collider has radius 16 and no offset |
| CharacterCollider.WorldPosition | src/characters/collider.rs:21-23 | the centre minus the translation's x,y is the offset |
| CharacterCollider.WorldPositionFollows | src/characters/collider.rs:21-23 | shifting the body shifts the centre by the same amount |
| CharacterCollider.Validated | src/characters/collider.rs:35-54 | a non-moving body or a non-positive `dt` keeps its velocity |
| CharacterCollider.ValidatedLandsOnSweep | src/characters/collider.rs:40-54 | a rewritten velocity carries the body in one frame to where the sweep stopped; a kept one means the sweep fell short by at most sqrt(0.001) or `dt` is not positive |
| CharacterCollider.ValidateMovement | src/characters/collider.rs:26-56 | without a map nothing changes; otherwise each velocity becomes its validated velocity |
| CharacterCollider.ValidateOne | src/characters/collider.rs:35-54 | one body's loop step gives its validated velocity |
| CharacterAnimation.FromDirection | src/characters/animation.rs:28-42 | horizontal exactly when the x magnitude is strictly larger; the zero vector faces Down |
| CharacterAnimation.DirectionIndex | src/characters/animation.rs:47-54 | the index is below 4 |
| CharacterAnimation.FacingRulesAgree | src/characters/animation.rs:24-55 | the animation facing and the facing component choose the same facing and the same row index |
| CharacterAnimation.DirectionIndexBijective | src/characters/animation.rs:47-54 | the index map is injective and hits each of 0..3 |
| CharacterAnimation.NewClip | src/characters/animation.rs:139-145 | a clip starts at the row's first cell and spans exactly `frame_count` frames |
| CharacterAnimation.ClipClosed | src/characters/animation.rs:148-166 | a clip contains its start, and `next` never leaves it |
| CharacterAnimation.AdvanceFromStart | src/characters/animation.rs:160-166 | `k` steps from the start land on frame `k` modulo the clip length |
| CharacterAnimation.ClipCycles | src/characters/animation.rs:160-166 | as many steps as the clip has frames come back to the start |
| CharacterAnimation.ClipRow | src/characters/animation.rs:86-90 | the row lies between the definition's start row and its last row |
| CharacterAnimation.GetClip | src/characters/animation.rs:81-97 | None exactly when the current animation is not defined; a clip otherwise is non-empty |
| CharacterAnimation.ClipRowCovered | src/characters/animation.rs:81-97 | the clip starts at its row's first cell, and the row is within the configuration's maximum row |
| CharacterAnimation.AnimationChangedIff | src/characters/animation.rs:210-221 | the animation changed exactly when a flag differs from its previous-frame copy |
| CharacterAnimation.AnimatedIndex | src/characters/animation.rs:189-240 | an entity keeps an atlas index exactly when it had one |
| CharacterAnimation.AnimatedInClip | src/characters/animation.rs:204-239 | afterwards the index is in the clip; at rest with no edge it is the clip's start |
| CharacterAnimation.AnimateCharacters | src/characters/animation.rs:179-241 | every entity's atlas index becomes its animated index |
| CharacterAnimation.Latched | src/characters/animation.rs:247-250 | current flags are kept, and a latched state shows no change |
| CharacterAnimation.LatchedIdempotent | src/characters/animation.rs:247-250 | latching twice is latching once |
| CharacterAnimation.UpdateAnimationFlags | src/characters/animation.rs:246-251 | every entity's flags are latched |
| CharacterMovement.CalculateMovementSpeed | src/characters/movement.rs:24-30 | the base speed, times the run multiplier exactly while running |
| CharacterMovement.MovementSpeedIsStateVelocity | src/characters/movement.rs:24-30 | the unit direction at this speed is the walking or running velocity of the state machine |
| CharacterMovement.Moved | src/characters/movement.rs:48-77 | z and the previous-frame flags are kept |
| CharacterMovement.MovedJump | src/characters/movement.rs:51-54 | Space leaves the player jumping with the Jump animation; this system never clears a jump |
| CharacterMovement.MovedFacingAndTranslation | src/characters/movement.rs:59-64 | a direction turns the player to it, even mid-jump, and moves it by the step; no direction changes neither |
| CharacterMovement.MovedDistance | src/characters/movement.rs:59-62 | with a direction the player covers exactly speed times `dt` |
| CharacterMovement.MovedCovers | src/characters/movement.rs:59-62 | with a direction the distance covered is the step's length |
| CharacterMovement.MovedAnimation | src/characters/movement.rs:59-77 | while jumping the moving flag and the animation are untouched; otherwise moving exactly with a direction, Run exactly with shift as well, else Walk |
| CharacterMovement.MovePlayer | src/characters/movement.rs:32-78 | with exactly one player its components become `Moved` of the input; otherwise nothing changes |
| CharacterMovement.Step | src/characters/movement.rs:48-77 | the body of the system yields `Moved` |
| CharacterMovement.JumpUpdated | src/characters/movement.rs:92-110 | facing and the other flags are kept |
| CharacterMovement.JumpUpdatedIff | src/characters/movement.rs:93-109 | an entity changes exactly when jumping, with an atlas index and a complete clip; it then stops jumping and walks |
| CharacterMovement.UpdateJumpState | src/characters/movement.rs:80-111 | every entity is updated independently by `JumpUpdated` |
| LegacyPlayer.RowZeroBased | src/player.rs:252-259 | the facing rows are the last four of the 12-row sheet |
| LegacyPlayer.RowZeroBasedInjective | src/player.rs:252-259 | different facings use different rows |
| LegacyPlayer.RowStartIndex | src/player.rs:240-242 | the index is the first column of the facing's row |
| LegacyPlayer.AtlasIndexFor | src/player.rs:246-248 | the index is in the facing's row, at the requested column clamped to the last one |
| LegacyPlayer.AtlasIndexInSheet | src/player.rs:78-84 | every index lies inside the 9 by 12 sheet |
| LegacyPlayer.Spawned | src/player.rs:86-113 | the sprite starts at frame 0 of its facing's row |
| LegacyPlayer.SpawnedIndex | src/player.rs:87-89 | the spawned index is 90, the start of the Down row |
| LegacyPlayer.DominantFacing | src/player.rs:158-172 | horizontal exactly when the x magnitude is strictly larger; Right and Up only for positive components; zero faces Down |
| LegacyPlayer.DominantFacingAgrees | src/player.rs:158-172 | the rule agrees with the animation module's `from_direction` |
| LegacyPlayer.Moved | src/player.rs:146-176 | z and the previous-frame flag are kept |
| LegacyPlayer.MovedIff | src/player.rs:146-176 | moving exactly with a direction; only then do position and facing change |
| LegacyPlayer.MovedDistance | src/player.rs:148-152 | a moving player covers exactly 140 times `dt` |
| LegacyPlayer.MovePlayer | src/player.rs:118-177 | with exactly one player it becomes `Moved` of the arrow direction; otherwise nothing changes |
| LegacyPlayer.ArrowDirection | src/player.rs:129-143 | the summed arrows equal the input reader of the character module |
| LegacyPlayer.Step | src/player.rs:146-176 | the body of the system yields `Moved` |
| LegacyPlayer.Animated | src/player.rs:196-235 | the previous-frame flag becomes the current one |
| LegacyPlayer.AnimatedInRow | src/player.rs:206-232 | afterwards the index is in the facing's row |
| LegacyPlayer.AnimatedColumn | src/player.rs:211-231 | a step moves to the next column, wrapping after the last; without one the index stays, or goes to the row start after a row change |
| LegacyPlayer.AnimatePlayer | src/player.rs:181-236 | with exactly one player that has an atlas, its state and index become `Animated`; otherwise nothing changes |
| Tilemap.TilemapSprites | src/map/tilemap.rs:16-383 | the table has 61 entries, entry `i` being the `i`-th sprite of the constant |
| Tilemap.TileSize | src/map/tilemap.rs:416-418 | the tile size is the definition's tile width and height |
| Tilemap.AtlasSize | src/map/tilemap.rs:421-423 | the atlas size is the definition's atlas width and height |
| Tilemap.TilemapSizes | src/map/tilemap.rs:6-14 | 32 by 32 tiles in a 256 by 320 atlas, 8 tiles across and 10 down |
| Tilemap.PositionFromFirst | src/map/tilemap.rs:432-434 | the search from `from` returns the first matching index at or after it, or None exactly when there is none |
| Tilemap.SpriteIndexFirst | src/map/tilemap.rs:432-434 | `sprite_index` returns the first sprite of that name, or None exactly when no sprite has it |
| Tilemap.FromCorners | src/map/tilemap.rs:446 | the rectangle has ordered corners taken from the two given ones |
| Tilemap.SpriteRect | src/map/tilemap.rs:443-447 | the rectangle starts at the sprite's pixel position and is one tile wide and high |
| Tilemap.CellsInAtlas | src/map/tilemap.rs:16-383 | each entry's cell is tile-aligned and inside the atlas |
| Tilemap.EntriesApart | src/map/tilemap.rs:16-383 | any two entries differ in name and in cell |
| Tilemap.AlignedTilesDisjoint | src/map/tilemap.rs:443-447 | distinct tile-aligned cells do not overlap |
| Tilemap.SpriteRectsTileAtlas | src/map/tilemap.rs:443-447 | every sprite rectangle lies inside the atlas, and two different sprites' rectangles do not overlap |
| Tilemap.SpriteIndexOfEntry | src/map/tilemap.rs:432-434 | looking an entry's name up finds that entry |
| Text.StrLessIrreflexive | src/inventory/inventory.rs:67 | the string order used by `sort` is irreflexive |
| Text.StrLessTransitive | src/inventory/inventory.rs:67 | the string order is transitive |
| Text.StrLessTotal | src/inventory/inventory.rs:67 | the string order is total |
| Text.StrLessAsymmetric | src/inventory/inventory.rs:67 | the string order is asymmetric |
| Text.StrLessAt | src/inventory/inventory.rs:67 | a string is smaller when it has the smaller character at the first difference |
| Text.DigitChar | src/inventory/inventory.rs:65 | a digit becomes the character of that digit |
| Text.NatToString | src/inventory/inventory.rs:65 | a count prints as decimal digits without a leading zero |
| Text.NatToStringRoundTrip | src/inventory/inventory.rs:65 | the printed digits read back to the count |
| Text.NatToStringInjective | src/inventory/inventory.rs:65 | different counts print differently |
| Text.JoinStartsWithFirst | src/inventory/inventory.rs:68 | a join starts with its first part |
| Text.Insert | src/inventory/inventory.rs:67 | inserting adds exactly the one element |
| Text.InsertSorted | src/inventory/inventory.rs:67 | inserting into a sorted list keeps it sorted |
| Text.Sort | src/inventory/inventory.rs:67 | sorting is a permutation |
| Text.SortSorted | src/inventory/inventory.rs:67 | sorting gives a sorted list |
| Text.DistinctMultiset | src/inventory/inventory.rs:67 | a list is duplicate-free exactly when each element occurs once in its multiset |
| Text.StrictlySortedUnique | src/inventory/inventory.rs:67 | two strictly sorted lists with the same elements are equal |
| Inventories.Rank | src/inventory/inventory.rs:15-22 | the display-name order places each kind among 0..3 |
| Inventories.AlphabeticalRanks | src/inventory/inventory.rs:15-22 | the alphabetical list and the ranks are inverse |
| Inventories.PartOrder | src/inventory/inventory.rs:62-67 | entries are ordered by display name whatever the counts |
| Inventories.DisplayNamesDistinct | src/inventory/inventory.rs:15-22 | different kinds have different display names and entries |
| Inventories.PartsFromSorted | src/inventory/inventory.rs:62-67 | from rank `i` on, the entries are strictly sorted and are exactly the entries of the counted kinds of rank `i` or more |
| Inventories.PartsInOrderSpec | src/inventory/inventory.rs:62-67 | the entries in display-name order are strictly sorted and are exactly the entries of the counted kinds |
| Inventories.SummaryEmptyIff | src/inventory/inventory.rs:58-69 | the summary is "Empty" exactly when nothing was collected |
| Inventories.PartInitial | src/inventory/inventory.rs:65 | no entry starts with `E` |
| Inventories.SummarySortedEntries | src/inventory/inventory.rs:62-68 | a non-empty summary joins a strictly sorted list holding exactly one entry per counted kind |
| Inventories.Inventory.constructor | src/inventory/inventory.rs:46-49 | a new inventory holds nothing |
| Inventories.Inventory.Add | src/inventory/inventory.rs:52-56 | the kind's count goes up by one and is returned; every other count is kept |
| Inventories.Inventory.Summary | src/inventory/inventory.rs:58-69 | the summary is the join of the entries in display-name order, or "Empty" |
| Inventories.Inventory.SortedEntries | src/inventory/inventory.rs:62-67 | sorting the entries, collected in any order, gives the display-name order |
| InventoryPickup.Collected | src/inventory/systems.rs:16-24 | no more items are selected than queried |
| InventoryPickup.CollectedPrefix | src/inventory/systems.rs:16-24 | one more queried item extends the selection by itself exactly when it is in reach |
| InventoryPickup.CollectedIff | src/inventory/systems.rs:16-24 | an item is selected exactly when it is strictly within its radius of the player |
| InventoryPickup.CollectedEntities | src/inventory/systems.rs:16-24 | only queried entities are selected, each with its own kind |
| InventoryPickup.AddedAllCounts | src/inventory/systems.rs:26-35 | each kind's count rises by the number of times it was added; a kind is present exactly when it was or was added |
| InventoryPickup.Kinds | src/inventory/systems.rs:26-35 | the kinds of a selection, position by position |
| InventoryPickup.Entities | src/inventory/systems.rs:26-35 | the entities of a selection, position by position |
| InventoryPickup.HandlePickups | src/inventory/systems.rs:5-36 | without exactly one player nothing happens; otherwise the selected items are despawned in query order and counted into the inventory |
| InventoryPickup.CollectInReach | src/inventory/systems.rs:15-24 | the first loop yields the selection |
| InventoryPickup.Absorb | src/inventory/systems.rs:26-35 | the second loop despawns the selected entities and adds their kinds |
| InventoryPickup.PickupCounts | src/inventory/systems.rs:26-35 | after a pickup each kind has gained one per selected item of that kind, and unselected kinds keep their count |
| GameStates.TogglePause | src/state/mod.rs:53-71 | Escape pauses Playing and resumes Paused; anything else asks for no change |
| GameStates.TogglePauseTwice | src/state/mod.rs:53-71 | two Escape presses in a row restore the state |
| GameStates.TogglePauseKeepsLoading | src/state/mod.rs:53-71 | the toggle neither leaves nor enters Loading |
| GameStates.CheckAssetsLoaded | src/state/mod.rs:38-51 | Playing is requested exactly when the resource exists and its asset is loaded; otherwise nothing |
| GameStates.FrameTransitions | src/state/mod.rs:33-71 | Loading is left only for Playing once the assets are loaded and never re-entered; Paused is reached only from Playing by Escape or kept without it |
| ParticleComponents.NewParticle | src/particles/components.rs:19-33 | a new particle has its full lifetime ahead, one colour, no spin or acceleration, and shrinks to half its scale |
| ParticleComponents.BuildersIndependent | src/particles/components.rs:35-54 | the builders commute, set exactly their fields and leave lifetime, velocity and curve starts alone |
| ParticleComponents.Lerp | src/particles/components.rs:72-75 | interpolation gives the start at 0 and the end at 1 |
| ParticleComponents.NewParticleWellformed | src/particles/components.rs:19-54 | a built particle has its lifetime within its maximum |
| ParticleComponents.NewParticleAtStart | src/particles/components.rs:56-75 | a fresh particle has zero progress and its start scale |
| ParticleComponents.ProgressBounds | src/particles/components.rs:56-75 | a live particle's progress is in [0, 1) and its scale lies between the curve's ends |
| ParticleComponents.LerpBetween | src/particles/components.rs:72-75 | for a parameter in [0, 1] interpolation stays between the ends |
| ParticleComponents.NewEmitter | src/particles/components.rs:89-98 | a new emitter is active, repeating and has not spawned, with the given rate, count and configuration |
| ParticleComponents.OneShotOnlyFlag | src/particles/components.rs:100-103 | `one_shot` sets that flag only, and twice is once |
| ParticleSystems.EmitterUpdated | src/particles/systems.rs:17-52 | the step keeps the one-shot flag, the spawn rate, the batch size and the configuration |
| ParticleSystems.EmitterUpdatedCases | src/particles/systems.rs:17-52 | inactive or spent one-shot emitters spawn nothing, and a spent one-shot is deactivated; a firing timer spawns a batch, marks the emitter spawned and deactivates a one-shot |
| ParticleSystems.EmitterFlagsMonotone | src/particles/systems.rs:17-52 | an emitter never re-activates and never forgets it spawned |
| ParticleSystems.RunEmitter | src/particles/systems.rs:7-55 | over a run of frames an emitter fires at most once per frame |
| ParticleSystems.InactiveNeverSpawns | src/particles/systems.rs:18-20 | an inactive emitter spawns nothing over any run |
| ParticleSystems.OneShotSpawnsOnce | src/particles/systems.rs:23-52 | a one-shot emitter fires at most once over any run, never after it has spawned, and is inactive after firing |
| ParticleSystems.NewOneShotSpawnsOnce | src/particles/systems.rs:23-52 | an emitter built by `new(...).one_shot()` fires at most once over any run |
| ParticleSystems.Batch | src/particles/systems.rs:36-47 | a batch is `count` spawns for one emitter, numbered in order |
| ParticleSystems.SpawnedByExactly | src/particles/systems.rs:7-55 | a spawn belongs to the list exactly when its emitter fired and its number is below the batch size; the length is the total |
| ParticleSystems.UpdateEmitters | src/particles/systems.rs:7-55 | every emitter takes its step, and the spawns are the batches of the firing emitters in query order |
| ParticleSystems.FinishedAmongExactly | src/particles/systems.rs:206-215 | exactly the finished one-shot emitters are listed, in order |
| ParticleSystems.CleanupFinishedEmitters | src/particles/systems.rs:206-215 | the despawned entities are exactly the inactive one-shot emitters, in query order |
| ParticleSystems.RunKeepsOffOnlyAfterSpawn | src/particles/systems.rs:17-52 | over any run of frames an emitter that is switched off only after spawning stays so |
| ParticleSystems.RunKeepsOneShot | src/particles/systems.rs:17-52 | no run of frames changes whether an emitter is one-shot |
| ParticleSystems.FinishedHasSpawned | src/particles/systems.rs:17-52 | an emitter built by `new`, one-shot or not, that a run of frames leaves finished is one-shot and has spawned, so the cleanup removes only spent emitters |
| ParticleSystems.FiredOneShotIsFinished | src/particles/systems.rs:23-52 | a one-shot emitter that fires is finished in the same frame; a repeating emitter never is |
| ParticleSystems.ParticleUpdatedSpec | src/particles/systems.rs:160-183 | the lifetime drops by `dt`; the particle is despawned exactly when it is no longer positive, and then is neither moved nor rescaled; a survivor stays well formed and alive with its curve, and its scale lies between the curve's ends |
| ParticleSystems.UpdateParticle | src/particles/systems.rs:160-183 | one particle's loop step yields its updated body |
| ParticleSystems.UpdateParticles | src/particles/systems.rs:149-190 | every particle is updated; an index is despawned exactly when its lifetime ran out, listed in increasing order |
| CollisionSystems.SightingsSnoc | src/collision/systems.rs:90-95 | one more placement appends its sighting |
| Geometry.NormalizeOrZero | src/characters/physics.rs:24-31 | `normalize_or_zero` is zero exactly for the zero vector and otherwise a positive multiple of it of unit length |
| Geometry.DisplacementLength | src/characters/movement.rs:59-61 | a step of `normalize() * speed * dt` has length speed times `dt` |
| Geometry.AverageVelocityCovers | src/characters/collider.rs:47-52 | moving for `dt` at the achieved displacement divided by `dt` covers that displacement |
| Geometry.Clamp | src/collision/map.rs:180-183 | the clamped value lies in the interval and is the value itself, or the nearer bound |
| Geometry.ClampNearest | src/collision/map.rs:179-186 | the clamped value is the point of the interval nearest the value |
| Tilemap.RuleSpritesResolve | src/map/assets.rs:144-146 | every sprite name the built-in rules use is found by `sprite_index`, at an entry of that name, so resolving the rules never panics |

## Left out

- Floating point: every `f32` is a Dafny `real`. Rounding, NaN and infinities are not modelled.
- Square roots: `length`, `normalize` and `normalize_or_zero` are characterised by the length parameter. They are not computed.
- Integer widths: `u32`, `usize` and `i32` are unbounded integers, except that the `as i32` casts of the map builder saturate, as Rust's float-to-int casts do (`CollisionSystems.CastI32`). No other `i32`, `u32` or `usize` overflow is modelled. The source can overflow in these places, and the model computes the exact value instead of panicking or wrapping:
  - the count increment in `Inventory::add` at `u32::MAX`;
  - `pixel + tile_size` in `sprite_rect`;
  - `max_x - min_x + 1` and `max_y - min_y + 1` in the map builder (src/collision/systems.rs:97-98), which the saturated casts can reach with cells at `i32::MIN` and `i32::MAX`, so `CollisionSystems.Extent` can give about 2^32;
  - `width * height` in `CollisionMap::new` (src/collision/map.rs:37);
  - `y * width + x` in `xy_to_idx` (src/collision/map.rs:60).
- Timers: a `Timer` is reduced to whether it fired this frame. Its duration, `tick`, `reset` and `set_duration` are not tracked. The emitter keeps its spawn rate only as a value.
- Transforms: only translations are modelled, plus the uniform scale that `update_particles` writes, kept as one number. Particle rotation (`rotate_z`) is left out.
- Colours: `current_color`, `Color::mix` and the material colour update of `update_particles` are left out. They depend on colour-space conversion.
- `spawn_particle`: left out. It draws from a random number generator and uses trigonometry; `update_emitters` returns the spawned `(emitter, index)` pairs instead.
- Logging: the `info!` lines of the pickup system and the loading progress are left out.
- Engine wiring: plugins, run conditions (`run_if`), change detection, the scheduler, the camera, character spawning and switching, the loading and pause screens and the debug drawing are not part of this model. The procedural-generation rule, socket and model tables of `src/map/` are not part of it either; of them, only the built-in rules' sprite names are used (`Tilemap.RuleSpritesResolve`).
- CharacterAnimation.NewClip: requires `frame_count >= 1`. The source computes `first + frame_count - 1` as `usize` with `first = row * atlas_columns`, so an empty animation underflows only when `first` is 0 (row 0, or zero columns). On any other row the source instead builds the degenerate clip `last = first - 1`: nothing is in it, the animation system puts the index back at `first` every frame, and `is_complete` holds at `first` once the timer finishes. The model leaves such empty animations out. `GetClip`, `ClipRowCovered`, `AnimatedIndex`, `AnimatedInClip` and `AnimateCharacters` in `CharacterAnimation`, and `JumpUpdated`, `JumpUpdatedIff` and `UpdateJumpState` in `CharacterMovement`, carry the same requirement through `FramesPresent`.
- CollisionMaps.CollisionMap: the geometric members require `tile_size > 0`. With a zero tile size the source divides by zero.
- CollisionMaps.CollisionMap.ClearNoBlockedOverlap: proved only when the effective radius is no larger in magnitude than the raw one. That holds for every kind when the radius is at least a tenth of a tile (`EffectiveRadiusBounded`). For a smaller radius, `radius - 0.2 * tile_size` is negative and the squared compare treats it as its magnitude. A tree or rock outside the raw candidate range may then lie within that magnitude without being scanned.
- CollisionMaps.CollisionMap.IsCircleClear: the candidate range is floored. A circle whose lowest x (or y) lies exactly on the upper edge of a blocking cell therefore does not scan that cell, although the intersection test counts touching as a hit; a circle touching a cell's lower edge does scan it. The model keeps this asymmetry, and `ClearNoBlockedOverlap` states coverage for strict overlap only.
- CollisionSystems.BuildCollisionMap: the map is built with the fixed origin (-400, -288), while cells are shifted by the observed minimum. Alignment between world positions and cells therefore holds only when that minimum is (0, 0), and no lemma claims it in general.
- ParticleComponents.Progress: requires `max_lifetime != 0`, where the source would produce NaN. `CurrentScale` inherits it. `ParticleSystems.ParticleUpdated` and `UpdateParticles` require `dt >= 0` and well-formed particles (a live particle's lifetime is positive and at most its maximum), which every particle built by `Particle::new` with a positive lifetime is.
- Inventories.Inventory.Summary: `Vec::sort` is modelled by an insertion sort, which gives the same result on the entries because they are distinct.
- CharacterInput.UpdateJumpState: the clip is a parameter. `src/characters/input.rs:131` calls `get_clip` with a configuration and a facing, but the `get_clip` of `src/characters/animation.rs:81` takes only the configuration.
- InventoryPickup: the pickup radius is a field value. The `DEFAULT_RADIUS` constant used by `Pickable::new` lives in `config::pickup`, which `src/config.rs` does not declare, so `Pickable::new` is left out.
- LegacyPlayer.MovePlayer and CharacterMovement.MovePlayer: the model computes the step `normalize() * speed * dt` before looking at the direction, and uses it only for a non-zero direction, as the source does. For a zero direction the source would not normalize at all; there the computed step is unused.
- `animate_loading` and the other UI systems of `src/state/` are not part of this model.
