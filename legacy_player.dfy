/**
 * The first, stand-alone player (src/player.rs): a 9-column, 12-row walk
 * sheet whose rows 8..11 hold the four facings, arrow-key movement at a
 * fixed speed, and a walk cycle that advances one column per timer tick.
 */
module LegacyPlayer {
  import opened Wrappers
  import opened Geometry
  import opened Keys
  import opened IntArith
  import CharacterInput
  import CharacterAnimation

  /** Pixel size of one sprite cell. */
  const TILE_SIZE: nat := 64
  /** Frames (columns) of each walk row. */
  const WALK_FRAMES: nat := 9
  /** Rows of the sheet. */
  const SHEET_ROWS: nat := 12
  /** Pixels per second. */
  const MOVE_SPEED: real := 140.0
  /** Seconds per animation frame. */
  const ANIM_DT: real := 0.1
  const PLAYER_Z: real := 20.0

  datatype Facing = Up | Left | Down | Right

  /** The player's own animation component. */
  datatype AnimationState = AnimationState(facing: Facing, moving: bool, wasMoving: bool)

  /** `row_zero_based`: the walk rows are the last four of the sheet. */
  function RowZeroBased(f: Facing): (row: nat)
    ensures SHEET_ROWS - 4 <= row < SHEET_ROWS
  {
    match f
    case Up => 8
    case Left => 9
    case Down => 10
    case Right => 11
  }

  /** Each facing has its own row. */
  lemma RowZeroBasedInjective(f: Facing, g: Facing)
    ensures RowZeroBased(f) == RowZeroBased(g) ==> f == g
  {
  }

  /** `row_start_index`: the first cell of the facing's row. */
  function RowStartIndex(f: Facing): (i: nat)
    ensures i / WALK_FRAMES == RowZeroBased(f) && i % WALK_FRAMES == 0
  {
    DivModCell(WALK_FRAMES, 0, RowZeroBased(f));
    RowZeroBased(f) * WALK_FRAMES
  }

  /** `atlas_index_for`: a frame of the facing's row, the frame clamped to the last column. */
  function AtlasIndexFor(f: Facing, frameInRow: nat): (i: nat)
    ensures RowStartIndex(f) <= i <= RowStartIndex(f) + WALK_FRAMES - 1
    ensures i / WALK_FRAMES == RowZeroBased(f)
    ensures i % WALK_FRAMES == if frameInRow < WALK_FRAMES then frameInRow else WALK_FRAMES - 1
  {
    var col := if frameInRow < WALK_FRAMES - 1 then frameInRow else WALK_FRAMES - 1;
    DivModCell(WALK_FRAMES, col, RowZeroBased(f));
    RowStartIndex(f) + col
  }

  /** Every cell the helpers produce lies in the 9 x 12 sheet. */
  lemma AtlasIndexInSheet(f: Facing, frameInRow: nat)
    ensures AtlasIndexFor(f, frameInRow) < WALK_FRAMES * SHEET_ROWS
  {
  }

  /** `spawn_player`: at the origin on its z layer, facing down, still, on the first down frame. */
  function Spawned(): (r: (Vec3, AnimationState, nat))
    ensures r.2 == AtlasIndexFor(r.1.facing, 0)
  {
    (Vec3(0.0, 0.0, PLAYER_Z), AnimationState(Down, false, false), AtlasIndexFor(Down, 0))
  }

  /** The first frame is cell 90, the start of row 10. */
  lemma SpawnedIndex()
    ensures Spawned().2 == 90 && Spawned().2 == RowStartIndex(Spawned().1.facing)
  {
  }

  /**
   * The facing of `move_player`: the axis with the larger magnitude wins,
   * ties going to the vertical one; its sign picks the side.
   */
  function DominantFacing(d: Vec2): (f: Facing)
    ensures (f == Left || f == Right) <==> Abs(d.x) > Abs(d.y)
    ensures f == Right ==> d.x > 0.0
    ensures f == Up ==> d.y > 0.0
    ensures d == ZERO2 ==> f == Down
  {
    if Abs(d.x) > Abs(d.y) then (if d.x > 0.0 then Right else Left)
    else (if d.y > 0.0 then Up else Down)
  }

  /** The animation controller's facing in the same direction. */
  function AsAnimationFacing(f: Facing): CharacterAnimation.Facing {
    match f
    case Up => CharacterAnimation.Up
    case Left => CharacterAnimation.Left
    case Down => CharacterAnimation.Down
    case Right => CharacterAnimation.Right
  }

  /** The legacy facing rule is the one `Facing::from_direction` later adopted. */
  lemma DominantFacingAgrees(d: Vec2)
    ensures AsAnimationFacing(DominantFacing(d)) == CharacterAnimation.FromDirection(d)
  {
  }

  /**
   * The player after `move_player`, given the direction and the step it
   * moves by: moving exactly when there is a direction, turned by the
   * dominant axis then, and otherwise in place with its facing kept.
   */
  function Moved(direction: Vec2, delta: Vec2, t: Vec3, s: AnimationState): (r: (Vec3, AnimationState))
    ensures r.0.z == t.z && r.1.wasMoving == s.wasMoving
  {
    if direction != ZERO2 then
      (Vec3(t.x + delta.x, t.y + delta.y, t.z), s.(moving := true, facing := DominantFacing(direction)))
    else (t, s.(moving := false))
  }

  /** `moving` holds exactly for a non-zero direction; only then do position and facing change. */
  lemma MovedIff(direction: Vec2, delta: Vec2, t: Vec3, s: AnimationState)
    ensures var r := Moved(direction, delta, t, s);
            (r.1.moving <==> direction != ZERO2) &&
            (direction != ZERO2 ==> r.1.facing == DominantFacing(direction) && Sub(Xy(r.0), Xy(t)) == delta) &&
            (direction == ZERO2 ==> r.0 == t && r.1.facing == s.facing)
  {
  }

  /** A moving player covers `MOVE_SPEED * dt` in the frame. */
  lemma MovedDistance(direction: Vec2, len: real, dt: real, t: Vec3, s: AnimationState)
    requires IsLengthOf(len, direction) && direction != ZERO2
    ensures var r := Moved(direction, Displacement(direction, len, MOVE_SPEED, dt), t, s);
            DistanceSquared(Xy(r.0), Xy(t)) == Sq(MOVE_SPEED * dt)
  {
    var delta := Displacement(direction, len, MOVE_SPEED, dt);
    DisplacementLength(direction, len, MOVE_SPEED, dt);
    MovedIff(direction, delta, t, s);
  }

  /**
   * `move_player`: acts only when exactly one player exists. The direction
   * is summed key by key, and it is the same vector `read_movement_input`
   * returns.
   */
  method MovePlayer(input: ButtonInput, dt: real, translations: array<Vec3>, anims: array<AnimationState>,
                    length: Vec2 -> real)
    requires IsLength(length)
    requires translations.Length == anims.Length
    modifies translations, anims
    ensures var d := CharacterInput.ReadMovementInput(input);
            IsLengthOf(length(d), d) &&
            (translations.Length == 1 ==>
               (translations[0], anims[0]) ==
               Moved(d, Displacement(d, length(d), MOVE_SPEED, dt), old(translations[0]), old(anims[0])))
    ensures translations.Length != 1 ==> translations[..] == old(translations[..]) && anims[..] == old(anims[..])
  {
    var direction := ArrowDirection(input);
    assert IsLengthOf(length(direction), direction);
    if translations.Length != 1 {
      return;
    }
    var delta := Displacement(direction, length(direction), MOVE_SPEED, dt);
    var r := Step(direction, delta, translations[0], anims[0]);
    translations[0], anims[0] := r.0, r.1;
  }

  /** The direction of the pressed arrow keys, accumulated one key at a time. */
  method ArrowDirection(input: ButtonInput) returns (direction: Vec2)
    ensures direction == CharacterInput.ReadMovementInput(input)
  {
    direction := ZERO2;
    if Pressed(input, ArrowLeft) {
      direction := direction.(x := direction.x - 1.0);
    }
    if Pressed(input, ArrowRight) {
      direction := direction.(x := direction.x + 1.0);
    }
    if Pressed(input, ArrowUp) {
      direction := direction.(y := direction.y + 1.0);
    }
    if Pressed(input, ArrowDown) {
      direction := direction.(y := direction.y - 1.0);
    }
    CharacterInput.ReadMovementInputAxes(input);
  }

  /** The body of `move_player` once the direction and the step are known. */
  method Step(direction: Vec2, delta: Vec2, t: Vec3, s: AnimationState) returns (r: (Vec3, AnimationState))
    ensures r == Moved(direction, delta, t, s)
  {
    var translation := t;
    var anim := s;
    if direction != ZERO2 {
      translation := translation.(x := translation.x + delta.x);
      translation := translation.(y := translation.y + delta.y);
      anim := anim.(moving := true);
      if Abs(direction.x) > Abs(direction.y) {
        anim := anim.(facing := if direction.x > 0.0 then Right else Left);
      } else {
        anim := anim.(facing := if direction.y > 0.0 then Up else Down);
      }
    } else {
      anim := anim.(moving := false);
    }
    r := (translation, anim);
  }

  /**
   * The state and atlas index after `animate_player`, given whether the
   * frame timer finished on this frame's tick: the index first snaps to the
   * facing's row start when it is on another row; a moving player then
   * steps to the next column at once when it just started moving, or else
   * when the timer finished.
   */
  function Animated(s: AnimationState, index: nat, timerFinished: bool): (r: (AnimationState, nat))
    ensures r.0 == s.(wasMoving := s.moving)
  {
    var rowStart := RowStartIndex(s.facing);
    var index1 := if index / WALK_FRAMES != RowZeroBased(s.facing) then rowStart else index;
    var justStarted := s.moving && !s.wasMoving;
    if s.moving && (justStarted || timerFinished) then
      (s.(wasMoving := s.moving), rowStart + (index1 % WALK_FRAMES + 1) % WALK_FRAMES)
    else (s.(wasMoving := s.moving), index1)
  }

  /** Afterwards the index is in the facing's row. */
  lemma AnimatedInRow(s: AnimationState, index: nat, timerFinished: bool)
    ensures var i := Animated(s, index, timerFinished).1;
            i / WALK_FRAMES == RowZeroBased(s.facing) &&
            RowStartIndex(s.facing) <= i <= RowStartIndex(s.facing) + WALK_FRAMES - 1
  {
    var rowStart := RowStartIndex(s.facing);
    var index1 := if index / WALK_FRAMES != RowZeroBased(s.facing) then rowStart else index;
    DivModCell(WALK_FRAMES, index1 % WALK_FRAMES, RowZeroBased(s.facing));
    DivModCell(WALK_FRAMES, (index1 % WALK_FRAMES + 1) % WALK_FRAMES, RowZeroBased(s.facing));
  }

  /**
   * The column: a player on another row starts over at column 0; a step
   * goes to the next column, wrapping after the last; without a step the
   * index is kept, or reset to the row start on a row change.
   */
  lemma AnimatedColumn(s: AnimationState, index: nat, timerFinished: bool)
    ensures var i := Animated(s, index, timerFinished).1;
            var onRow := index / WALK_FRAMES == RowZeroBased(s.facing);
            var col := if onRow then index % WALK_FRAMES else 0;
            var steps := s.moving && (!s.wasMoving || timerFinished);
            (steps ==> i % WALK_FRAMES == (if col == WALK_FRAMES - 1 then 0 else col + 1)) &&
            (!steps && onRow ==> i == index) &&
            (!steps && !onRow ==> i == RowStartIndex(s.facing))
  {
    var rowStart := RowStartIndex(s.facing);
    var index1 := if index / WALK_FRAMES != RowZeroBased(s.facing) then rowStart else index;
    var col := index1 % WALK_FRAMES;
    ModSucc(col, WALK_FRAMES);
    DivModCell(WALK_FRAMES, (col + 1) % WALK_FRAMES, RowZeroBased(s.facing));
  }

  /**
   * `animate_player`: acts only when exactly one player exists and its
   * sprite has an atlas; otherwise not even `was_moving` is updated.
   */
  method AnimatePlayer(anims: array<AnimationState>, atlas: array<Option<nat>>, timerFinished: bool)
    requires anims.Length == atlas.Length
    modifies anims, atlas
    ensures anims.Length == 1 && old(atlas[0]).Some? ==>
              var r := Animated(old(anims[0]), old(atlas[0]).value, timerFinished);
              anims[0] == r.0 && atlas[0] == Some(r.1)
    ensures !(anims.Length == 1 && old(atlas[0]).Some?) ==> anims[..] == old(anims[..]) && atlas[..] == old(atlas[..])
  {
    if anims.Length != 1 || atlas[0].None? {
      return;
    }
    var anim := anims[0];
    var index := atlas[0].value;
    var justStarted := anim.moving && !anim.wasMoving;
    var rowStart := RowStartIndex(anim.facing);
    var targetRow := RowZeroBased(anim.facing);
    var currentRow := index / WALK_FRAMES;
    if currentRow != targetRow {
      index := rowStart;
    }
    if anim.moving {
      var currentCol := index % WALK_FRAMES;
      var nextCol := (currentCol + 1) % WALK_FRAMES;
      if justStarted {
        index := rowStart + nextCol;
      } else if timerFinished {
        index := rowStart + nextCol;
      }
    }
    atlas[0] := Some(index);
    anims[0] := anim.(wasMoving := anim.moving);
  }
}
