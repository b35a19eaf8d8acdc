/**
  The slice of the engine's per-frame input state that the game code reads:
  the mouse motion since the last frame and the keys pressed this frame or
  held down.
 */
module Events {

  /** The keys the modelled code asks about; every other key is `OtherKey`. */
  datatype KeyCode = Up | Down | W | A | S | D | OtherKey

  datatype Events = Events(dx: real, dy: real, pressed: set<KeyCode>, held: set<KeyCode>)

  /** `key_pressed`: the key went down during this frame. */
  predicate KeyPressed(ev: Events, k: KeyCode) {
    k in ev.pressed
  }

  /** `key_held`: the key is down. */
  predicate KeyHeld(ev: Events, k: KeyCode) {
    k in ev.held
  }

  /** A frame with no mouse motion and no keys. */
  const Idle: Events := Events(0.0, 0.0, {}, {})
}
