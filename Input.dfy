/**
 * The hexadecimal keypad: the sixteen SDL scancodes it is mapped to, key
 * validation, scancode-to-digit translation and the any-key query.
 */
module Input {
  /** An SDL scancode: the USB HID usage ID of a physical key. */
  type Scancode = int

  /** Entries of the keyboard state array SDL returns (`SDL_NUM_SCANCODES`). */
  const NumScancodes: int := 512

  const Key0: Scancode := 30  // SDL_SCANCODE_1
  const Key1: Scancode := 31  // SDL_SCANCODE_2
  const Key2: Scancode := 32  // SDL_SCANCODE_3
  const Key3: Scancode := 33  // SDL_SCANCODE_4
  const Key4: Scancode := 20  // SDL_SCANCODE_Q
  const Key5: Scancode := 26  // SDL_SCANCODE_W
  const Key6: Scancode := 8   // SDL_SCANCODE_E
  const Key7: Scancode := 21  // SDL_SCANCODE_R
  const Key8: Scancode := 4   // SDL_SCANCODE_A
  const Key9: Scancode := 22  // SDL_SCANCODE_S
  const KeyA: Scancode := 7   // SDL_SCANCODE_D
  const KeyB: Scancode := 9   // SDL_SCANCODE_F
  const KeyC: Scancode := 29  // SDL_SCANCODE_Z
  const KeyD: Scancode := 27  // SDL_SCANCODE_X
  const KeyE: Scancode := 6   // SDL_SCANCODE_C
  const KeyF: Scancode := 25  // SDL_SCANCODE_V

  /** The scancode of hex key `h` is `Keys[h]`. */
  const Keys: seq<Scancode> :=
    [Key0, Key1, Key2, Key3, Key4, Key5, Key6, Key7,
     Key8, Key9, KeyA, KeyB, KeyC, KeyD, KeyE, KeyF]

  /** No two hex keys share a scancode, so a scancode names at most one key. */
  lemma KeysDistinct()
    ensures |Keys| == 16
    ensures forall h, g :: 0 <= h < g < |Keys| ==> Keys[h] != Keys[g]
    ensures forall h :: 0 <= h < |Keys| ==> 0 <= Keys[h] < NumScancodes
  {
  }

  /**
   * `isValidKey`: accepts hex keys below 0xF only, so the last key, 0xF,
   * is rejected although it is a key of the pad.
   */
  function IsValidKey(key: bv8): (valid: bool)
    ensures valid <==> key < 0xF
  {
    key >= 0 && key < 0xF
  }

  /** The keyboard state SDL reports: one byte per scancode, 1 while that key is held. */
  type KeyboardState = s: seq<bv8> | |s| == NumScancodes witness seq(NumScancodes, _ => 0)

  /** `isKeyDown(key)`: the state byte of `key` is 1. */
  predicate IsKeyDown(keys: KeyboardState, key: Scancode)
    requires 0 <= key < NumScancodes
  {
    keys[key] == 1
  }

  /** `anyKeyDown`: one of the sixteen pad keys is held. */
  predicate AnyKeyDown(keys: KeyboardState) {
    IsKeyDown(keys, Key0) || IsKeyDown(keys, Key1) || IsKeyDown(keys, Key2) || IsKeyDown(keys, Key3) ||
    IsKeyDown(keys, Key4) || IsKeyDown(keys, Key5) || IsKeyDown(keys, Key6) || IsKeyDown(keys, Key7) ||
    IsKeyDown(keys, Key8) || IsKeyDown(keys, Key9) || IsKeyDown(keys, KeyA) || IsKeyDown(keys, KeyB) ||
    IsKeyDown(keys, KeyC) || IsKeyDown(keys, KeyD) || IsKeyDown(keys, KeyE) || IsKeyDown(keys, KeyF)
  }

  /** `anyKeyDown` holds exactly when the scancode of some hex key `h` is held. */
  lemma AnyKeyDownIff(keys: KeyboardState)
    ensures AnyKeyDown(keys) <==> exists h :: 0 <= h < |Keys| && IsKeyDown(keys, Keys[h])
  {
    assert Keys[0] == Key0 && Keys[1] == Key1 && Keys[2] == Key2 && Keys[3] == Key3;
    assert Keys[4] == Key4 && Keys[5] == Key5 && Keys[6] == Key6 && Keys[7] == Key7;
    assert Keys[8] == Key8 && Keys[9] == Key9 && Keys[10] == KeyA && Keys[11] == KeyB;
    assert Keys[12] == KeyC && Keys[13] == KeyD && Keys[14] == KeyE && Keys[15] == KeyF;
  }

  /** Scancode `key` is among the keys `toHex` searches, `Keys[0]` to `Keys[0xE]`. */
  predicate Translatable(key: Scancode) {
    exists h :: 0 <= h < 0xF && Keys[h] == key
  }

  /**
   * `toHex(key, hex)`: searches `Keys[0]` to `Keys[0xE]` for `key`; on a
   * match returns true with the index, otherwise false with `hex` as it
   * was. The search stops before index 0xF, so `KeyF` is never translated.
   */
  method ToHex(key: Scancode, hex: bv8) returns (found: bool, hexOut: bv8)
    ensures found <==> Translatable(key)
    ensures found ==> hexOut < 0xF && Keys[hexOut] == key
    ensures !found ==> hexOut == hex
  {
    var i: bv8 := 0;
    while i < 0xF
      invariant i <= 0xF
      invariant forall h :: 0 <= h < i as int ==> Keys[h] != key
    {
      if Keys[i] == key {
        return true, i;
      }
      i := i + 1;
    }
    return false, hex;
  }

  /** The index `toHex` yields is the only one naming the scancode, and it is a valid key. */
  lemma TranslationUnique(key: Scancode, h: bv8)
    requires h < 0xF && Keys[h] == key
    ensures IsValidKey(h)
    ensures forall g :: 0 <= g < |Keys| && Keys[g] == key ==> g == h as int
  {
    KeysDistinct();
  }

  /**
   * Every key but 0xF is translated back to its own index; `KeyF` is not
   * translated at all, and 0xF is not a valid key either.
   */
  lemma TranslationCoverage()
    ensures forall h :: 0 <= h < 0xF ==> Translatable(Keys[h])
    ensures !Translatable(KeyF) && !IsValidKey(0xF)
  {
    KeysDistinct();
  }
}
