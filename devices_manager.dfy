/**
 * The input devices the core polls: an optional keyboard and the connected
 * gamepads, each bound to a joypad port, and the port limit.
 */
module DevicesManager {
  import opened Ints
  import opened Joypad
  import opened Wrappers
  import Keyboard

  /** `DEFAULT_MAX_PORT`. */
  const DEFAULT_MAX_PORT: nat := 2

  const UNKNOWN_NAME := "Chave desconhecida"

  /** `get_key_name_from_retro_button`: the display name of a joypad id. */
  function RetroButtonName(retro: u32): string
  {
    if retro == RETRO_DEVICE_ID_JOYPAD_DOWN then "Retro DPad-down"
    else if retro == RETRO_DEVICE_ID_JOYPAD_UP then "Retro DPad-up"
    else if retro == RETRO_DEVICE_ID_JOYPAD_LEFT then "Retro DPad-left"
    else if retro == RETRO_DEVICE_ID_JOYPAD_RIGHT then "Retro DPad-right"
    else if retro == RETRO_DEVICE_ID_JOYPAD_B then "Retro B"
    else if retro == RETRO_DEVICE_ID_JOYPAD_A then "Retro A"
    else if retro == RETRO_DEVICE_ID_JOYPAD_X then "Retro X"
    else if retro == RETRO_DEVICE_ID_JOYPAD_Y then "Retro Y"
    else if retro == RETRO_DEVICE_ID_JOYPAD_L then "Retro L"
    else if retro == RETRO_DEVICE_ID_JOYPAD_R then "Retro R"
    else if retro == RETRO_DEVICE_ID_JOYPAD_L2 then "Retro L2"
    else if retro == RETRO_DEVICE_ID_JOYPAD_R2 then "Retro R2"
    else if retro == RETRO_DEVICE_ID_JOYPAD_L3 then "Retro L3"
    else if retro == RETRO_DEVICE_ID_JOYPAD_R3 then "Retro R3"
    else if retro == RETRO_DEVICE_ID_JOYPAD_START then "Retro Start"
    else if retro == RETRO_DEVICE_ID_JOYPAD_SELECT then "Retro Select"
    else UNKNOWN_NAME
  }

  /** The sixteen joypad ids have pairwise-distinct names; every other id has the fallback name. */
  lemma RetroButtonNames(a: u32, b: u32)
    ensures a < 16 <==> RetroButtonName(a) != UNKNOWN_NAME
    ensures a < 16 && b < 16 && a != b ==> RetroButtonName(a) != RetroButtonName(b)
  {
  }

  /**
   * A connected gamepad as the manager sees it: its port and its two answers.
   * How a gamepad derives them from its buttons is in retro_gamepad.rs, which
   * is not part of this model.
   */
  datatype GamePad = GamePad(retroPort: i16, keyPressed: i16 -> i16, bitmasks: i16)

  /** `DeviceRubble`: a rumble request. */
  datatype DeviceRumble = DeviceRumble(port: nat, strongEffect: bool, strength: u16)

  /** The first gamepad on `port`. */
  function FirstOnPort(pads: seq<GamePad>, port: int): (r: Option<nat>)
    ensures r.Some? ==> r.value < |pads| && pads[r.value].retroPort == port
    ensures r.Some? ==> forall j :: 0 <= j < r.value ==> pads[j].retroPort != port
    ensures r.None? ==> forall j :: 0 <= j < |pads| ==> pads[j].retroPort != port
  {
    if pads == [] then None
    else if pads[0].retroPort == port then Some(0)
    else match FirstOnPort(pads[1..], port)
      case None => None
      case Some(i) => Some(i + 1)
  }

  /**
   * A gamepad's answer to a key id: the whole mask for `RETRO_DEVICE_ID_JOYPAD_MASK`,
   * otherwise one key (the sign-extending `key_id as u32` equals 256 only for 256).
   */
  function PadAnswer(pad: GamePad, keyId: i16): i16
  {
    if keyId != RETRO_DEVICE_ID_JOYPAD_MASK then pad.keyPressed(keyId) else pad.bitmasks
  }

  class DevicesManager {
    var gamepads: seq<GamePad>
    var keyboard: Keyboard.Keyboard?
    var maxPorts: nat

    /** `DevicesManager::new`: no keyboard, no gamepads, the default port limit. */
    constructor()
      ensures gamepads == [] && keyboard == null && maxPorts == DEFAULT_MAX_PORT
    {
      gamepads := [];
      keyboard := null;
      maxPorts := DEFAULT_MAX_PORT;
    }

    /** The keyboard, when there is one, keeps its table well formed. */
    predicate Valid()
      reads this, keyboard
    {
      keyboard != null ==> keyboard.Valid()
    }

    /** `is_using_keyboard`. */
    predicate IsUsingKeyboard()
      reads this
    {
      keyboard != null
    }

    /** `active_keyboard`: a fresh keyboard replaces any previous one; the caller gets a copy of it. */
    method ActiveKeyboard() returns (k: Keyboard.Keyboard)
      modifies this
      ensures fresh(k) && fresh(keyboard) && keyboard != k
      ensures IsUsingKeyboard() && Valid()
      ensures keyboard.keyMap == Keyboard.DefaultKeyMaps() && keyboard.retroPort == 0
      ensures k.keyMap == Keyboard.DefaultKeyMaps() && k.retroPort == 0 && k.retroType == RETRO_DEVICE_JOYPAD
      ensures gamepads == old(gamepads) && maxPorts == old(maxPorts)
    {
      k := new Keyboard.Keyboard();
      keyboard := new Keyboard.Keyboard();
    }

    /** `disable_keyboard`. */
    method DisableKeyboard()
      modifies this
      ensures !IsUsingKeyboard() && Valid()
      ensures gamepads == old(gamepads) && maxPorts == old(maxPorts)
    {
      keyboard := null;
    }

    /** `update_keyboard`: forwards a key event to the keyboard, if there is one. */
    method UpdateKeyboard(native: Keyboard.PhysicalKey, pressed: bool)
      requires Valid()
      modifies keyboard
      ensures Valid()
      ensures keyboard != null ==> Keyboard.PressedUpdate(old(keyboard.keyMap), keyboard.keyMap, native, pressed)
      ensures keyboard != null ==> keyboard.retroPort == old(keyboard.retroPort)
    {
      if keyboard != null {
        keyboard.SetKeyPressed(native, pressed);
      }
    }

    /** `set_max_port`. */
    method SetMaxPort(maxPort: nat)
      modifies this
      ensures maxPorts == maxPort
      ensures gamepads == old(gamepads) && keyboard == old(keyboard)
    {
      maxPorts := maxPort;
    }

    /**
     * `get_input_state`: the keyboard answers when it is on the port, before any
     * gamepad; otherwise the first gamepad on the port answers; otherwise 0.
     */
    method GetInputState(port: i16, keyId: i16) returns (r: i16)
      requires Valid()
      ensures keyboard != null && keyboard.retroPort == port && keyId != RETRO_DEVICE_ID_JOYPAD_MASK ==>
        r == Keyboard.KeyState(keyboard.keyMap, keyId)
      ensures keyboard != null && keyboard.retroPort == port && keyId == RETRO_DEVICE_ID_JOYPAD_MASK ==>
        r == ToI16(Keyboard.Mask(keyboard.keyMap))
      ensures (keyboard == null || keyboard.retroPort != port) ==>
        r == (match FirstOnPort(gamepads, port)
              case None => 0
              case Some(i) => PadAnswer(gamepads[i], keyId))
    {
      if keyboard != null && keyboard.retroPort == port {
        if keyId != RETRO_DEVICE_ID_JOYPAD_MASK {
          r := keyboard.GetKeyPressed(keyId);
        } else {
          r := keyboard.GetKeyBitmasks();
        }
        return;
      }
      var i := 0;
      while i < |gamepads|
        invariant 0 <= i <= |gamepads|
        invariant forall j :: 0 <= j < i ==> gamepads[j].retroPort != port
      {
        if gamepads[i].retroPort == port {
          assert FirstOnPort(gamepads, port) == Some(i);
          return PadAnswer(gamepads[i], keyId);
        }
        i := i + 1;
      }
      r := 0;
    }

    /** `apply_rumble`: the request is only logged, and always reported as applied. */
    function ApplyRumble(rumble: DeviceRumble): (applied: bool)
      ensures applied
    {
      true
    }
  }
}
