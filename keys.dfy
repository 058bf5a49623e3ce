/**
 * The keyboard state the systems read each frame (Bevy's `ButtonInput<KeyCode>`):
 * the keys held down and the keys that went down this frame.
 */
module Keys {
  datatype KeyCode = ArrowLeft | ArrowRight | ArrowUp | ArrowDown | ShiftLeft | ShiftRight | Space | Escape

  datatype ButtonInput = ButtonInput(held: set<KeyCode>, pressedThisFrame: set<KeyCode>)

  /** `ButtonInput::pressed`: the key is held down. */
  predicate Pressed(input: ButtonInput, k: KeyCode) {
    k in input.held
  }

  /** `ButtonInput::just_pressed`: the key went down this frame. */
  predicate JustPressed(input: ButtonInput, k: KeyCode) {
    k in input.pressedThisFrame
  }

  /** Either shift key is held: the run modifier. */
  predicate ShiftHeld(input: ButtonInput) {
    Pressed(input, ShiftLeft) || Pressed(input, ShiftRight)
  }
}
