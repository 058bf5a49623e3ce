/**
 * Keyboard movement of the animated player (src/characters/movement.rs):
 * the run speed, the translation step with its jump/walk/run animation
 * flags, and the end of a jump once its clip has played.
 */
module CharacterMovement {
  import opened Wrappers
  import opened Geometry
  import opened Keys
  import opened CharacterStates
  import opened CharacterConfig
  import opened CharacterPhysics
  import opened CharacterAnimation
  import CharacterInput

  /** `calculate_movement_speed`: the base speed, times the run multiplier while running. */
  function CalculateMovementSpeed(character: CharacterEntry, isRunning: bool): (s: real)
    ensures !isRunning ==> s == character.baseMoveSpeed
    ensures isRunning ==> s == character.baseMoveSpeed * character.runSpeedMultiplier
  {
    if isRunning then character.baseMoveSpeed * character.runSpeedMultiplier else character.baseMoveSpeed
  }

  /**
   * The speed agrees with the state machine's velocity: moving the unit
   * direction at this speed is the velocity of the walking or running state.
   */
  lemma MovementSpeedIsStateVelocity(direction: Vec2, character: CharacterEntry, isRunning: bool, len: real)
    requires IsLengthOf(len, direction)
    ensures Scale(NormalizeOrZero(direction, len), CalculateMovementSpeed(character, isRunning)) ==
            CalculateVelocity(if isRunning then Running else Walking, direction, character, len)
  {
    ScaleScale(NormalizeOrZero(direction, len), character.baseMoveSpeed, character.runSpeedMultiplier);
  }

  /** The components of the player entity `move_player` reads and writes. */
  datatype Mover = Mover(translation: Vec3, controller: AnimationController, state: AnimationState)

  /**
   * The player after one frame of `move_player`, given the arrow-key
   * direction, the step `delta` it would move by, whether Space went down
   * and whether shift is held: Space starts a jump, a non-zero direction
   * moves the player by `delta` and turns it, and, unless it is jumping, the
   * moving flag and the walk/run animation follow the input.
   */
  function Moved(direction: Vec2, delta: Vec2, space: bool, isRunning: bool, m: Mover): (r: Mover)
    ensures r.translation.z == m.translation.z
    ensures r.state.wasMoving == m.state.wasMoving && r.state.wasJumping == m.state.wasJumping
  {
    var jumping := m.state.isJumping || space;
    var animation := if space then Jump else m.controller.currentAnimation;
    if direction != ZERO2 then
      var t := Vec3(m.translation.x + delta.x, m.translation.y + delta.y, m.translation.z);
      var facing := FromDirection(direction);
      if jumping then
        Mover(t, AnimationController(animation, facing), m.state.(isJumping := true))
      else
        Mover(t, AnimationController(if isRunning then Run else Walk, facing), m.state.(isMoving := true))
    else if jumping then
      Mover(m.translation, m.controller.(currentAnimation := animation), m.state.(isJumping := true))
    else
      Mover(m.translation, m.controller.(currentAnimation := Walk), m.state.(isMoving := false))
  }

  /** Space always leaves the player jumping with the Jump animation; a jump is never cleared here. */
  lemma MovedJump(direction: Vec2, delta: Vec2, space: bool, isRunning: bool, m: Mover)
    ensures var r := Moved(direction, delta, space, isRunning, m);
            r.state.isJumping == (m.state.isJumping || space) &&
            (space ==> r.controller.currentAnimation == Jump)
  {
  }

  /**
   * A non-zero direction turns the player towards it, even mid-jump, and
   * moves it by the step; without a direction neither facing nor position
   * changes.
   */
  lemma MovedFacingAndTranslation(direction: Vec2, delta: Vec2, space: bool, isRunning: bool, m: Mover)
    ensures var r := Moved(direction, delta, space, isRunning, m);
            (direction != ZERO2 ==> r.controller.facing == FromDirection(direction) &&
                                    Sub(Xy(r.translation), Xy(m.translation)) == delta) &&
            (direction == ZERO2 ==> r.controller.facing == m.controller.facing && r.translation == m.translation)
  {
  }

  /**
   * Over a frame of `dt` with the step of `move_player`, a player with a
   * direction covers exactly `speed * dt`.
   */
  lemma MovedDistance(direction: Vec2, len: real, space: bool, isRunning: bool, speed: real, dt: real, m: Mover)
    requires IsLengthOf(len, direction) && direction != ZERO2
    ensures var r := Moved(direction, Displacement(direction, len, speed, dt), space, isRunning, m);
            DistanceSquared(Xy(r.translation), Xy(m.translation)) == Sq(speed * dt)
  {
    DisplacementLength(direction, len, speed, dt);
    MovedCovers(direction, Displacement(direction, len, speed, dt), space, isRunning, m);
  }

  /** With a direction, the distance covered is the length of the step. */
  lemma MovedCovers(direction: Vec2, delta: Vec2, space: bool, isRunning: bool, m: Mover)
    requires direction != ZERO2
    ensures var r := Moved(direction, delta, space, isRunning, m);
            DistanceSquared(Xy(r.translation), Xy(m.translation)) == LengthSquared(delta)
  {
    MovedFacingAndTranslation(direction, delta, space, isRunning, m);
  }

  /**
   * While jumping (before or by this frame's Space) the direction never
   * touches the moving flag or the animation; otherwise the player is moving
   * exactly when there is a direction, and runs exactly when shift is held
   * as well, else walks.
   */
  lemma MovedAnimation(direction: Vec2, delta: Vec2, space: bool, isRunning: bool, m: Mover)
    ensures var r := Moved(direction, delta, space, isRunning, m);
            var jumping := m.state.isJumping || space;
            (jumping ==> r.state.isMoving == m.state.isMoving &&
                         r.controller.currentAnimation == (if space then Jump else m.controller.currentAnimation)) &&
            (!jumping ==> (r.state.isMoving <==> direction != ZERO2) &&
                          (r.controller.currentAnimation == Run <==> direction != ZERO2 && isRunning) &&
                          (r.controller.currentAnimation == Walk <==> !(direction != ZERO2 && isRunning)))
  {
  }

  /**
   * `move_player`: acts only when exactly one player entity exists, with the
   * direction read from the arrow keys, Space and either shift key.
   */
  method MovePlayer(input: ButtonInput, dt: real, translations: array<Vec3>, controllers: array<AnimationController>,
                    states: array<AnimationState>, characters: seq<CharacterEntry>, length: Vec2 -> real)
    requires IsLength(length)
    requires translations.Length == controllers.Length == states.Length == |characters|
    modifies translations, controllers, states
    ensures var d := CharacterInput.ReadMovementInput(input);
            IsLengthOf(length(d), d) &&
            (translations.Length == 1 ==>
               Mover(translations[0], controllers[0], states[0]) ==
               Moved(d, Displacement(d, length(d), CalculateMovementSpeed(characters[0], ShiftHeld(input)), dt),
                     JustPressed(input, Space), ShiftHeld(input),
                     Mover(old(translations[0]), old(controllers[0]), old(states[0]))))
    ensures translations.Length != 1 ==>
              translations[..] == old(translations[..]) && controllers[..] == old(controllers[..]) &&
              states[..] == old(states[..])
  {
    var direction := CharacterInput.ReadMovementInput(input);
    var len := length(direction);
    assert IsLengthOf(len, direction);
    if translations.Length != 1 {
      return;
    }
    var isRunning := Pressed(input, ShiftLeft) || Pressed(input, ShiftRight);
    // The step is pure and `Step` uses it only for a non-zero direction.
    var moveSpeed := CalculateMovementSpeed(characters[0], isRunning);
    var delta := Displacement(direction, len, moveSpeed, dt);
    var m := Step(direction, delta, JustPressed(input, Space), isRunning,
                  Mover(translations[0], controllers[0], states[0]));
    translations[0], controllers[0], states[0] := m.translation, m.controller, m.state;
  }

  /** The body of `move_player` once the step is known: the jump key, then the direction. */
  method Step(direction: Vec2, delta: Vec2, space: bool, isRunning: bool, m: Mover) returns (r: Mover)
    ensures r == Moved(direction, delta, space, isRunning, m)
  {
    var state := m.state;
    var animated := m.controller;
    if space {
      state := state.(isJumping := true);
      animated := animated.(currentAnimation := Jump);
    }
    var translation := m.translation;
    if direction != ZERO2 {
      translation := Vec3(translation.x + delta.x, translation.y + delta.y, translation.z);
      animated := animated.(facing := FromDirection(direction));
      if !state.isJumping {
        state := state.(isMoving := true);
        animated := animated.(currentAnimation := if isRunning then Run else Walk);
      }
    } else if !state.isJumping {
      state := state.(isMoving := false);
      animated := animated.(currentAnimation := Walk);
    }
    r := Mover(translation, animated, state);
  }

  /**
   * One entity after `update_jump_state`: a jumping character whose sprite
   * has an atlas and whose clip is complete lands and goes back to Walk.
   */
  function JumpUpdated(ctrl: AnimationController, s: AnimationState, timerFinished: bool, atlasIndex: Option<nat>,
                       config: CharacterEntry): (r: (AnimationController, AnimationState))
    requires FramesPresent(config)
    ensures r.0.facing == ctrl.facing
    ensures r.1.isMoving == s.isMoving && r.1.wasMoving == s.wasMoving && r.1.wasJumping == s.wasJumping
  {
    if !s.isJumping then (ctrl, s)
    else if atlasIndex.None? then (ctrl, s)
    else
      var clip := GetClip(ctrl, config);
      if clip.None? then (ctrl, s)
      else if IsComplete(clip.value, atlasIndex.value, timerFinished) then
        (ctrl.(currentAnimation := Walk), s.(isJumping := false))
      else (ctrl, s)
  }

  /**
   * An entity changes exactly when it is jumping, has an atlas index, and the
   * clip of its current animation is complete there; it then stops jumping
   * and walks. Entities that are not jumping are never touched.
   */
  lemma JumpUpdatedIff(ctrl: AnimationController, s: AnimationState, timerFinished: bool, atlasIndex: Option<nat>,
                       config: CharacterEntry)
    requires FramesPresent(config)
    ensures var r := JumpUpdated(ctrl, s, timerFinished, atlasIndex, config);
            var lands := s.isJumping && atlasIndex.Some? && GetClip(ctrl, config).Some? &&
                         atlasIndex.value >= GetClip(ctrl, config).value.last && timerFinished;
            (lands ==> !r.1.isJumping && r.0.currentAnimation == Walk) &&
            (!lands ==> r == (ctrl, s))
  {
  }

  /** `update_jump_state`: every player entity, independently. */
  method UpdateJumpState(controllers: array<AnimationController>, states: array<AnimationState>,
                         timerFinished: seq<bool>, atlas: seq<Option<nat>>, configs: seq<CharacterEntry>)
    requires controllers.Length == states.Length == |timerFinished| == |atlas| == |configs|
    requires forall i | 0 <= i < |configs| :: FramesPresent(configs[i])
    modifies controllers, states
    ensures forall i | 0 <= i < states.Length ::
              (controllers[i], states[i]) ==
              JumpUpdated(old(controllers[i]), old(states[i]), timerFinished[i], atlas[i], configs[i])
  {
    for i := 0 to states.Length
      invariant forall j | 0 <= j < i ::
                  (controllers[j], states[j]) ==
                  JumpUpdated(old(controllers[j]), old(states[j]), timerFinished[j], atlas[j], configs[j])
      invariant forall j | i <= j < states.Length :: controllers[j] == old(controllers[j]) && states[j] == old(states[j])
    {
      if !states[i].isJumping {
        continue;
      }
      if atlas[i].None? {
        continue;
      }
      var clip := GetClip(controllers[i], configs[i]);
      if clip.None? {
        continue;
      }
      if IsComplete(clip.value, atlas[i].value, timerFinished[i]) {
        states[i] := states[i].(isJumping := false);
        controllers[i] := controllers[i].(currentAnimation := Walk);
      }
    }
  }
}
