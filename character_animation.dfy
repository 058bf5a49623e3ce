/**
 * Sprite-sheet animation: the animation module's own facing type, clips as
 * frame ranges, clip selection and the per-frame animation systems
 * (src/characters/animation.rs). The frame timer is abstracted to whether it
 * finishes when ticked this frame.
 */
module CharacterAnimation {
  import opened Wrappers
  import opened Geometry
  import opened CharacterConfig
  import opened IntArith
  import CharacterFacing

  /** The animation module's facing, declared separately from the facing component. */
  datatype Facing = Up | Left | Down | Right

  /** `Facing::from_direction`: the same dominant-axis rule, horizontal only on a strict win. */
  function FromDirection(d: Vec2): (f: Facing)
    ensures (f == Left || f == Right) <==> Abs(d.x) > Abs(d.y)
    ensures d == ZERO2 ==> f == Down
  {
    if Abs(d.x) > Abs(d.y) then
      if d.x > 0.0 then Right else Left
    else
      if d.y > 0.0 then Up else Down
  }

  /** `direction_index`: Up, Left, Down, Right are rows 0, 1, 2, 3 after the start row. */
  function DirectionIndex(f: Facing): (i: nat)
    ensures i < 4
  {
    match f
    case Up => 0
    case Left => 1
    case Down => 2
    case Right => 3
  }

  /** The facing component with the same name. */
  function AsComponent(f: Facing): CharacterFacing.Facing {
    match f
    case Up => CharacterFacing.Up
    case Left => CharacterFacing.Left
    case Down => CharacterFacing.Down
    case Right => CharacterFacing.Right
  }

  /** The two facing types follow one rule and one row numbering. */
  lemma FacingRulesAgree(d: Vec2, f: Facing)
    ensures AsComponent(FromDirection(d)) == CharacterFacing.FromVelocity(d)
    ensures DirectionIndex(f) == CharacterFacing.DirectionIndex(AsComponent(f))
  {
  }

  /** `direction_index` is a bijection onto 0..3. */
  lemma DirectionIndexBijective(f: Facing, g: Facing, i: nat)
    ensures DirectionIndex(f) == DirectionIndex(g) ==> f == g
    ensures i < 4 ==> exists h: Facing :: DirectionIndex(h) == i
  {
    if i < 4 {
      var h := if i == 0 then Up else if i == 1 then Left else if i == 2 then Down else Right;
      assert DirectionIndex(h) == i;
    }
  }

  datatype AnimationController = AnimationController(currentAnimation: AnimationType, facing: Facing)

  /** `AnimationController::default`: walking, facing down. */
  const DEFAULT_CONTROLLER: AnimationController := AnimationController(Walk, Down)

  datatype AnimationState = AnimationState(isMoving: bool, wasMoving: bool, isJumping: bool, wasJumping: bool)

  /** The derived default: all flags clear. */
  const DEFAULT_ANIMATION_STATE: AnimationState := AnimationState(false, false, false, false)

  /** A clip: the inclusive range of atlas indices it plays. */
  datatype AnimationClip = AnimationClip(first: nat, last: nat)

  /** `AnimationClip::new`: `frameCount` consecutive frames starting at the row's first cell. */
  function NewClip(row: nat, frameCount: nat, atlasColumns: nat): (c: AnimationClip)
    requires frameCount >= 1
    ensures c.first == row * atlasColumns
    ensures c.first <= c.last && c.last - c.first + 1 == frameCount
  {
    var first := row * atlasColumns;
    AnimationClip(first, first + frameCount - 1)
  }

  /** `start`. */
  function Start(c: AnimationClip): nat {
    c.first
  }

  /** `contains`: the index lies in the clip's inclusive range. */
  predicate Contains(c: AnimationClip, i: nat) {
    c.first <= i <= c.last
  }

  /** `next`: one frame on, wrapping from the last frame to the first. */
  function Next(c: AnimationClip, i: nat): nat {
    if i == c.last then c.first else i + 1
  }

  /** `is_complete`: at or past the last frame and the frame timer just finished. */
  predicate IsComplete(c: AnimationClip, i: nat, timerFinished: bool) {
    i >= c.last && timerFinished
  }

  /** A non-empty clip contains its start, and stepping never leaves it. */
  lemma ClipClosed(c: AnimationClip, i: nat)
    requires c.first <= c.last
    ensures Contains(c, Start(c))
    ensures Contains(c, i) ==> Contains(c, Next(c, i))
  {
  }

  /** Frame `i` stepped `k` times. */
  function Advance(c: AnimationClip, i: nat, k: nat): nat {
    if k == 0 then i else Next(c, Advance(c, i, k - 1))
  }

  /** Stepping `k` times from the start lands on frame `k` modulo the clip length. */
  lemma {:induction false} AdvanceFromStart(c: AnimationClip, k: nat)
    requires c.first <= c.last
    ensures Advance(c, Start(c), k) == c.first + k % (c.last - c.first + 1)
  {
    var n := c.last - c.first + 1;
    if k > 0 {
      AdvanceFromStart(c, k - 1);
      ModSucc(k - 1, n);
    }
  }

  /** A clip plays its frames in a cycle: after as many steps as it has frames, it is back at the start. */
  lemma ClipCycles(c: AnimationClip)
    requires c.first <= c.last
    ensures Advance(c, Start(c), c.last - c.first + 1) == Start(c)
  {
    AdvanceFromStart(c, c.last - c.first + 1);
    DivModCell(c.last - c.first + 1, 0, 1);
  }

  /** Every animation has at least one frame: `AnimationClip::new` subtracts one from the count. */
  ghost predicate FramesPresent(config: CharacterEntry) {
    forall t | t in config.animations :: config.animations[t].frameCount >= 1
  }

  /** The sheet row a definition plays in for a facing: offset by the facing when directional. */
  function ClipRow(def: AnimationDefinition, f: Facing): (row: nat)
    ensures def.startRow <= row <= LastRow(def)
  {
    if def.directional then def.startRow + DirectionIndex(f) else def.startRow
  }

  /** `get_clip`: the current animation's clip for the current facing, None when it is not defined. */
  function GetClip(ctrl: AnimationController, config: CharacterEntry): (r: Option<AnimationClip>)
    requires FramesPresent(config)
    ensures r.None? <==> ctrl.currentAnimation !in config.animations
    ensures r.Some? ==> r.value.first <= r.value.last
  {
    if ctrl.currentAnimation !in config.animations then None
    else
      var def := config.animations[ctrl.currentAnimation];
      Some(NewClip(ClipRow(def, ctrl.facing), def.frameCount, config.atlasColumns))
  }

  /** Every clip `get_clip` can pick starts in a row the sheet laid out with `max_row + 1` rows has. */
  lemma ClipRowCovered(ctrl: AnimationController, config: CharacterEntry)
    requires FramesPresent(config) && GetClip(ctrl, config).Some?
    ensures var def := config.animations[ctrl.currentAnimation];
            GetClip(ctrl, config).value.first == ClipRow(def, ctrl.facing) * config.atlasColumns &&
            ClipRow(def, ctrl.facing) <= CalculateMaxAnimationRow(config)
  {
  }

  /** Whether any of the four start/stop edges of the movement and jump flags happened this frame. */
  predicate AnimationChanged(s: AnimationState) {
    var justStartedMoving := s.isMoving && !s.wasMoving;
    var justStoppedMoving := !s.isMoving && s.wasMoving;
    var justStartedJumping := s.isJumping && !s.wasJumping;
    var justStoppedJumping := !s.isJumping && s.wasJumping;
    justStartedMoving || justStartedJumping || justStoppedMoving || justStoppedJumping
  }

  /** The flags changed exactly when one of them differs from its previous-frame copy. */
  lemma AnimationChangedIff(s: AnimationState)
    ensures AnimationChanged(s) <==> s.isMoving != s.wasMoving || s.isJumping != s.wasJumping
  {
  }

  /**
   * One entity's atlas index after `animate_characters`: out-of-clip indices
   * snap to the start; an edge restarts the clip; while moving or jumping the
   * frame advances when the timer fires; at rest the start frame shows.
   */
  function AnimatedIndex(ctrl: AnimationController, s: AnimationState, timerFires: bool,
                         config: CharacterEntry, index: Option<nat>): (r: Option<nat>)
    requires FramesPresent(config)
    ensures r.Some? <==> index.Some?
  {
    if index.None? then index
    else match GetClip(ctrl, config)
      case None => index
      case Some(clip) =>
        if ctrl.currentAnimation !in config.animations then index
        else
          var i := if !Contains(clip, index.value) then Start(clip) else index.value;
          if AnimationChanged(s) then Some(Start(clip))
          else if s.isJumping || s.isMoving then
            if timerFires then Some(Next(clip, i)) else Some(i)
          else if i != Start(clip) then Some(Start(clip))
          else Some(i)
  }

  /**
   * After the system, a sprite with a clip shows a frame of that clip; with no
   * edge and neither moving nor jumping it shows the clip's first frame.
   */
  lemma AnimatedInClip(ctrl: AnimationController, s: AnimationState, timerFires: bool,
                       config: CharacterEntry, index: Option<nat>)
    requires FramesPresent(config) && index.Some? && GetClip(ctrl, config).Some?
    ensures Contains(GetClip(ctrl, config).value, AnimatedIndex(ctrl, s, timerFires, config, index).value)
    ensures !AnimationChanged(s) && !s.isMoving && !s.isJumping ==>
              AnimatedIndex(ctrl, s, timerFires, config, index) == Some(Start(GetClip(ctrl, config).value))
  {
    var clip := GetClip(ctrl, config).value;
    ClipClosed(clip, if !Contains(clip, index.value) then Start(clip) else index.value);
  }

  /** `animate_characters`: every queried entity's atlas index is updated; the other components are read only. */
  method AnimateCharacters(controllers: seq<AnimationController>, states: seq<AnimationState>, timerFires: seq<bool>,
                           configs: seq<CharacterEntry>, atlas: array<Option<nat>>)
    requires |controllers| == |states| == |timerFires| == |configs| == atlas.Length
    requires forall i | 0 <= i < |configs| :: FramesPresent(configs[i])
    modifies atlas
    ensures forall i | 0 <= i < atlas.Length ::
              atlas[i] == AnimatedIndex(controllers[i], states[i], timerFires[i], configs[i], old(atlas[i]))
  {
    var n := atlas.Length;
    for i := 0 to n
      invariant forall j | 0 <= j < i ::
                  atlas[j] == AnimatedIndex(controllers[j], states[j], timerFires[j], configs[j], old(atlas[j]))
      invariant forall j | i <= j < n :: atlas[j] == old(atlas[j])
    {
      if atlas[i].None? {
        continue;
      }
      var clip := GetClip(controllers[i], configs[i]);
      if clip.None? {
        continue;
      }
      if controllers[i].currentAnimation !in configs[i].animations {
        continue;
      }
      var c := clip.value;
      if !Contains(c, atlas[i].value) {
        atlas[i] := Some(Start(c));
      }
      var s := states[i];
      var justStartedMoving := s.isMoving && !s.wasMoving;
      var justStoppedMoving := !s.isMoving && s.wasMoving;
      var justStartedJumping := s.isJumping && !s.wasJumping;
      var justStoppedJumping := !s.isJumping && s.wasJumping;
      var shouldAnimate := s.isJumping || s.isMoving;
      var animationChanged := justStartedMoving || justStartedJumping || justStoppedMoving || justStoppedJumping;
      if animationChanged {
        atlas[i] := Some(Start(c));
      } else if shouldAnimate {
        if timerFires[i] {
          atlas[i] := Some(Next(c, atlas[i].value));
        }
      } else {
        if atlas[i].value != Start(c) {
          atlas[i] := Some(Start(c));
        }
      }
    }
  }

  /** The flags at the end of a frame: the current values become the previous ones. */
  function Latched(s: AnimationState): (r: AnimationState)
    ensures r.isMoving == s.isMoving && r.isJumping == s.isJumping
    ensures !AnimationChanged(r)
  {
    s.(wasMoving := s.isMoving, wasJumping := s.isJumping)
  }

  /** Latching twice is latching once. */
  lemma LatchedIdempotent(s: AnimationState)
    ensures Latched(Latched(s)) == Latched(s)
  {
  }

  /** `update_animation_flags`: every entity's flags are latched. */
  method UpdateAnimationFlags(states: array<AnimationState>)
    modifies states
    ensures forall i | 0 <= i < states.Length :: states[i] == Latched(old(states[i]))
  {
    for i := 0 to states.Length
      invariant forall j | 0 <= j < i :: states[j] == Latched(old(states[j]))
      invariant forall j | i <= j < states.Length :: states[j] == old(states[j])
    {
      var s := states[i];
      states[i] := s.(wasMoving := s.isMoving, wasJumping := s.isJumping);
    }
  }
}
