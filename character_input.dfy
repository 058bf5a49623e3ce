/**
 * Keyboard-driven player control through the state machine
 * (src/characters/input.rs): direction from the arrow keys, the next
 * locomotion state, facing and velocity, and leaving the jump state.
 */
module CharacterInput {
  import opened Wrappers
  import opened Geometry
  import opened Keys
  import opened CharacterStates
  import opened CharacterFacing
  import opened CharacterConfig
  import opened CharacterPhysics
  import CharacterAnimation

  /** `MOVEMENT_KEYS`: each arrow key and the unit vector it contributes. */
  const MOVEMENT_KEYS: seq<(KeyCode, Vec2)> := [
    (ArrowLeft, Vec2(-1.0, 0.0)), (ArrowRight, Vec2(1.0, 0.0)),
    (ArrowUp, Vec2(0.0, 1.0)), (ArrowDown, Vec2(0.0, -1.0))]

  /** The sum of the vectors of the pressed keys among `keys[i..]`. */
  function SumPressed(keys: seq<(KeyCode, Vec2)>, i: nat, input: ButtonInput): Vec2
    decreases |keys| - i
  {
    if i >= |keys| then ZERO2
    else
      var rest := SumPressed(keys, i + 1, input);
      if Pressed(input, keys[i].0) then Add(keys[i].1, rest) else rest
  }

  /** +1 for the positive key, -1 for the negative one, 0 for both or neither. */
  function KeyAxis(input: ButtonInput, positive: KeyCode, negative: KeyCode): (a: real)
    ensures a == -1.0 || a == 0.0 || a == 1.0
  {
    (if Pressed(input, positive) then 1.0 else 0.0) - (if Pressed(input, negative) then 1.0 else 0.0)
  }

  /** `read_movement_input`: the unit vectors of the pressed arrow keys, summed. */
  function ReadMovementInput(input: ButtonInput): Vec2 {
    SumPressed(MOVEMENT_KEYS, 0, input)
  }

  /** The last two entries of `MOVEMENT_KEYS` make up the vertical axis. */
  lemma VerticalKeys(input: ButtonInput)
    ensures SumPressed(MOVEMENT_KEYS, 2, input) == Vec2(0.0, KeyAxis(input, ArrowUp, ArrowDown))
  {
    DownKey(input);
  }

  /** The last entry of `MOVEMENT_KEYS` alone. */
  lemma DownKey(input: ButtonInput)
    ensures SumPressed(MOVEMENT_KEYS, 3, input) == Vec2(0.0, if Pressed(input, ArrowDown) then -1.0 else 0.0)
  {
  }

  /** Opposite arrows cancel: each component is the difference of its two arrows, so -1, 0 or 1. */
  lemma ReadMovementInputAxes(input: ButtonInput)
    ensures ReadMovementInput(input) == Vec2(KeyAxis(input, ArrowRight, ArrowLeft), KeyAxis(input, ArrowUp, ArrowDown))
  {
    VerticalKeys(input);
    RightKey(input);
  }

  /** The right arrow on top of the vertical axis. */
  lemma RightKey(input: ButtonInput)
    requires SumPressed(MOVEMENT_KEYS, 2, input) == Vec2(0.0, KeyAxis(input, ArrowUp, ArrowDown))
    ensures SumPressed(MOVEMENT_KEYS, 1, input)
      == Vec2(if Pressed(input, ArrowRight) then 1.0 else 0.0, KeyAxis(input, ArrowUp, ArrowDown))
  {
  }

  /** With no arrow held there is no direction. */
  lemma NoArrowsNoDirection(input: ButtonInput)
    requires !Pressed(input, ArrowLeft) && !Pressed(input, ArrowRight)
    requires !Pressed(input, ArrowUp) && !Pressed(input, ArrowDown)
    ensures ReadMovementInput(input) == ZERO2
  {
    ReadMovementInputAxes(input);
  }

  /**
   * `determine_new_state`: a jump runs until it is over; a grounded character
   * asked to jump jumps; otherwise it runs or walks towards a direction and
   * idles without one.
   */
  function DetermineNewState(current: CharacterState, direction: Vec2, isRunning: bool, wantsJump: bool): (r: CharacterState)
    ensures r == Jumping <==> current == Jumping || wantsJump
    ensures r != Jumping ==> (r == Idle <==> direction == ZERO2)
    ensures r != Jumping && direction != ZERO2 ==> (r == Running <==> isRunning)
  {
    match current
    case Jumping => Jumping
    case _ =>
      if wantsJump && IsGrounded(current) then Jumping
      else if direction != ZERO2 then (if isRunning then Running else Walking)
      else Idle
  }

  /** The next state does not depend on the current one unless that one is Jumping. */
  lemma GroundedStatesForgotten(a: CharacterState, b: CharacterState, direction: Vec2, isRunning: bool, wantsJump: bool)
    requires IsGrounded(a) && IsGrounded(b)
    ensures DetermineNewState(a, direction, isRunning, wantsJump) == DetermineNewState(b, direction, isRunning, wantsJump)
  {
  }

  /** The components `handle_player_input` reads and writes on the player. */
  datatype PlayerControl = PlayerControl(state: CharacterState, velocity: Vec2, facing: Facing, character: CharacterEntry)

  /**
   * The player after one frame of input: facing follows a non-zero direction,
   * the state is re-decided, and the velocity is computed from the new state.
   */
  function HandledInput(input: ButtonInput, p: PlayerControl, length: Vec2 -> real): (r: PlayerControl)
    requires IsLength(length)
    ensures r.character == p.character
    ensures r.state == DetermineNewState(p.state, ReadMovementInput(input), ShiftHeld(input), JustPressed(input, Space))
    ensures IsLengthOf(length(ReadMovementInput(input)), ReadMovementInput(input))
    ensures r.velocity == CalculateVelocity(r.state, ReadMovementInput(input), p.character, length(ReadMovementInput(input)))
  {
    var direction := ReadMovementInput(input);
    var isRunning := ShiftHeld(input);
    var wantsJump := JustPressed(input, Space);
    var facing := if direction != ZERO2 then FromVelocity(direction) else p.facing;
    var state := DetermineNewState(p.state, direction, isRunning, wantsJump);
    PlayerControl(state, CalculateVelocity(state, direction, p.character, length(direction)), facing, p.character)
  }

  /**
   * The facing changes only for a non-zero direction, and the velocity is
   * non-zero only while walking or running towards a direction.
   */
  lemma HandledInputFacingAndVelocity(input: ButtonInput, p: PlayerControl, length: Vec2 -> real)
    requires IsLength(length)
    ensures var d := ReadMovementInput(input);
            var r := HandledInput(input, p, length);
            (d == ZERO2 ==> r.facing == p.facing && r.velocity == ZERO2) &&
            (d != ZERO2 ==> r.facing == FromVelocity(d)) &&
            (IsMoving(r.velocity) ==> r.state == Walking || r.state == Running)
  {
    var d := ReadMovementInput(input);
    assert IsLengthOf(length(d), d);
  }

  /**
   * Towards a non-zero direction and with no jump under way or asked for,
   * the character walks at exactly its base speed along the direction, or,
   * with shift held, runs at that walking velocity times the run multiplier.
   */
  lemma HandledInputMotion(input: ButtonInput, p: PlayerControl, length: Vec2 -> real)
    requires IsLength(length)
    requires ReadMovementInput(input) != ZERO2
    requires p.state != Jumping && !JustPressed(input, Space)
    ensures var d := ReadMovementInput(input);
            var r := HandledInput(input, p, length);
            var walk := CalculateVelocity(Walking, d, p.character, length(d));
            (r.state == if ShiftHeld(input) then Running else Walking) &&
            LengthSquared(walk) == Sq(p.character.baseMoveSpeed) &&
            (p.character.baseMoveSpeed >= 0.0 ==> exists k: real :: k >= 0.0 && walk == Scale(d, k)) &&
            (r.state == Walking ==> r.velocity == walk) &&
            (r.state == Running ==> r.velocity == Scale(walk, p.character.runSpeedMultiplier))
  {
    var d := ReadMovementInput(input);
    assert IsLengthOf(length(d), d);
    WalkingSpeed(d, p.character, length(d));
    if p.character.baseMoveSpeed >= 0.0 {
      WalkingAlongInput(d, p.character, length(d));
    }
    RunningScalesWalking(d, p.character, length(d));
  }

  /** `handle_player_input`: acts only when exactly one player entity exists. */
  method HandlePlayerInput(input: ButtonInput, players: array<PlayerControl>, length: Vec2 -> real)
    requires IsLength(length)
    modifies players
    ensures players.Length == 1 ==> players[0] == HandledInput(input, old(players[0]), length)
    ensures players.Length != 1 ==> players[..] == old(players[..])
  {
    if players.Length != 1 {
      return;
    }
    var p := players[0];
    var direction := ReadMovementInput(input);
    var isRunning := Pressed(input, ShiftLeft) || Pressed(input, ShiftRight);
    var wantsJump := JustPressed(input, Space);
    var facing := p.facing;
    if direction != ZERO2 {
      var newFacing := FromVelocity(direction);
      if facing != newFacing {
        facing := newFacing;
      }
    }
    var state := p.state;
    var newState := DetermineNewState(state, direction, isRunning, wantsJump);
    if state != newState {
      state := newState;
    }
    assert IsLengthOf(length(direction), direction);
    var velocity := CalculateVelocity(state, direction, p.character, length(direction));
    players[0] := PlayerControl(state, velocity, facing, p.character);
  }

  /**
   * The state after `update_jump_state`, given the sprite's atlas index and
   * the clip the controller would pick: a jump ends, to Idle, once its clip is complete.
   */
  function JumpSettled(state: CharacterState, atlasIndex: Option<nat>, clip: Option<CharacterAnimation.AnimationClip>,
                       timerFinished: bool): (r: CharacterState)
    ensures r != state ==> state == Jumping && r == Idle
  {
    if state != Jumping then state
    else if atlasIndex.None? || clip.None? then state
    else if CharacterAnimation.IsComplete(clip.value, atlasIndex.value, timerFinished) then Idle
    else state
  }

  /** A jump ends exactly when the clip is complete at the current frame. */
  lemma JumpEndsWhenComplete(atlasIndex: nat, clip: CharacterAnimation.AnimationClip, timerFinished: bool)
    ensures JumpSettled(Jumping, Some(atlasIndex), Some(clip), timerFinished) == Idle <==>
            atlasIndex >= clip.last && timerFinished
  {
  }

  /**
   * `update_jump_state`: acts only when exactly one player entity exists.
   * The clip is an input here: the call site passes the character
   * configuration and the facing, which the animation module's `get_clip` does not take.
   */
  method UpdateJumpState(states: array<CharacterState>, atlasIndex: Option<nat>,
                         clip: Option<CharacterAnimation.AnimationClip>, timerFinished: bool)
    modifies states
    ensures states.Length == 1 ==> states[0] == JumpSettled(old(states[0]), atlasIndex, clip, timerFinished)
    ensures states.Length != 1 ==> states[..] == old(states[..])
  {
    if states.Length != 1 {
      return;
    }
    if states[0] != Jumping {
      return;
    }
    if atlasIndex.None? || clip.None? {
      return;
    }
    if CharacterAnimation.IsComplete(clip.value, atlasIndex.value, timerFinished) {
      states[0] := Idle;
    }
  }
}
