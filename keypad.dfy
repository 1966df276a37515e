/** The 16-key hexadecimal keypad (src/keypad.rs).

    The keypad is a plain value: sixteen booleans and nothing else.  The
    engine only reads it; the input collaborator that sets keys is outside
    the model. */
module Keypad {
  import opened Bytes

  const KEY_COUNT: int := 16

  /** Exactly sixteen key states, indexed 0x0..0xF. */
  type Keys = s: seq<bool> | |s| == KEY_COUNT
    witness [false, false, false, false, false, false, false, false,
             false, false, false, false, false, false, false, false]

  datatype Keypad = Keypad(keys: Keys)

  /** `Keypad::new` is called by the engine's constructor but is not defined
      in keypad.rs; the model takes it to start with every key released. */
  function New(): (kp: Keypad)
    ensures forall k :: 0 <= k < KEY_COUNT ==> !kp.keys[k]
  {
    Keypad(seq(KEY_COUNT, _ => false))
  }

  /** `is_pressed(index)`: the state of key `index`; an index of 16 or more
      (the argument is a `u8`) is an out-of-bounds panic. */
  function IsPressed(kp: Keypad, index: Byte): (r: Result<bool>)
    ensures r.Err? <==> index >= KEY_COUNT
    ensures r.Err? ==> r.fault == KeyBounds
    ensures r.Ok? ==> (r.value <==> kp.keys[index])
  {
    if index < KEY_COUNT then Ok(kp.keys[index]) else Err(KeyBounds)
  }

  /** The keypad holds nothing but its sixteen independent key states: two
      keypads are equal exactly when every query answers the same. */
  lemma Extensional(a: Keypad, b: Keypad)
    ensures a == b <==> forall k: Byte :: k < KEY_COUNT ==> IsPressed(a, k) == IsPressed(b, k)
  {
    if forall k: Byte :: k < KEY_COUNT ==> IsPressed(a, k) == IsPressed(b, k) {
      forall k | 0 <= k < KEY_COUNT ensures a.keys[k] == b.keys[k] {
        assert IsPressed(a, k) == IsPressed(b, k);
      }
      assert a.keys == b.keys;
    }
  }
}
