/** The character's locomotion state (src/characters/state.rs). */
module CharacterStates {
  datatype CharacterState = Idle | Walking | Running | Jumping

  /** The derived default. */
  const DEFAULT_STATE: CharacterState := Idle

  /** `is_grounded`: standing, walking or running. */
  predicate IsGrounded(s: CharacterState) {
    s == Idle || s == Walking || s == Running
  }

  /** A character is off the ground exactly while it jumps. */
  lemma GroundedIffNotJumping(s: CharacterState)
    ensures IsGrounded(s) <==> s != Jumping
  {
  }

  /** The default state is a grounded one. */
  lemma DefaultIsGrounded()
    ensures DEFAULT_STATE == Idle && IsGrounded(DEFAULT_STATE)
  {
  }
}
