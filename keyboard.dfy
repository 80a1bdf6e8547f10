/** The keyboard joypad: a fixed table from physical keys to joypad ids, with the pressed state of each. */
module Keyboard {
  import opened Ints
  import opened Wrappers
  import opened Joypad

  /** The physical keys of the default table; any other key is `OtherKey`. */
  datatype KeyCode =
    | KeyS | KeyA | KeyW | KeyD | Space | KeyL | KeyJ | KeyI
    | KeyQ | KeyE | KeyU | KeyO | KeyC | KeyN | Enter | Backspace
    | OtherKey(code: nat)

  /** `winit::keyboard::PhysicalKey`. */
  datatype PhysicalKey = Code(keyCode: KeyCode) | Unidentified(scanCode: nat)

  /** One entry of the table: a physical key, the joypad id it stands for, and whether it is held. */
  datatype KeyboardKeyMap = KeyboardKeyMap(native: PhysicalKey, retro: u32, pressed: bool)

  /** `KeyboardKeyMap::new`: a released entry. */
  function NewKeyMap(native: PhysicalKey, retro: u32): (k: KeyboardKeyMap)
    ensures k.native == native && k.retro == retro && !k.pressed
  {
    KeyboardKeyMap(native, retro, false)
  }

  /** The default table: WASD for the directional pad, Space/L/J/I for B/A/X/Y, and so on. */
  function DefaultKeyMaps(): seq<KeyboardKeyMap>
  {
    [ NewKeyMap(Code(KeyS), RETRO_DEVICE_ID_JOYPAD_DOWN),
      NewKeyMap(Code(KeyA), RETRO_DEVICE_ID_JOYPAD_LEFT),
      NewKeyMap(Code(KeyW), RETRO_DEVICE_ID_JOYPAD_UP),
      NewKeyMap(Code(KeyD), RETRO_DEVICE_ID_JOYPAD_RIGHT),
      NewKeyMap(Code(Space), RETRO_DEVICE_ID_JOYPAD_B),
      NewKeyMap(Code(KeyL), RETRO_DEVICE_ID_JOYPAD_A),
      NewKeyMap(Code(KeyJ), RETRO_DEVICE_ID_JOYPAD_X),
      NewKeyMap(Code(KeyI), RETRO_DEVICE_ID_JOYPAD_Y),
      NewKeyMap(Code(KeyQ), RETRO_DEVICE_ID_JOYPAD_L),
      NewKeyMap(Code(KeyE), RETRO_DEVICE_ID_JOYPAD_R),
      NewKeyMap(Code(KeyU), RETRO_DEVICE_ID_JOYPAD_L2),
      NewKeyMap(Code(KeyO), RETRO_DEVICE_ID_JOYPAD_R2),
      NewKeyMap(Code(KeyC), RETRO_DEVICE_ID_JOYPAD_L3),
      NewKeyMap(Code(KeyN), RETRO_DEVICE_ID_JOYPAD_R3),
      NewKeyMap(Code(Enter), RETRO_DEVICE_ID_JOYPAD_START),
      NewKeyMap(Code(Backspace), RETRO_DEVICE_ID_JOYPAD_SELECT) ]
  }

  /** Every id is a joypad button, and no key and no id appears twice. */
  predicate WellFormed(km: seq<KeyboardKeyMap>)
  {
    (forall i :: 0 <= i < |km| ==> km[i].retro < 16)
    && (forall i, j :: 0 <= i < j < |km| ==> km[i].retro != km[j].retro && km[i].native != km[j].native)
  }

  /** The default table is well formed, has one entry per joypad button, and starts with every key released. */
  lemma DefaultKeyMapsWellFormed()
    ensures WellFormed(DefaultKeyMaps()) && |DefaultKeyMaps()| == 16
    ensures forall i :: 0 <= i < 16 ==> !DefaultKeyMaps()[i].pressed
  {
    DefaultSlots();
  }

  /** The row of the default table that holds a key, or -1. */
  function KeySlot(k: PhysicalKey): int
  {
    match k
    case Code(KeyS) => 0 case Code(KeyA) => 1 case Code(KeyW) => 2 case Code(KeyD) => 3
    case Code(Space) => 4 case Code(KeyL) => 5 case Code(KeyJ) => 6 case Code(KeyI) => 7
    case Code(KeyQ) => 8 case Code(KeyE) => 9 case Code(KeyU) => 10 case Code(KeyO) => 11
    case Code(KeyC) => 12 case Code(KeyN) => 13 case Code(Enter) => 14 case Code(Backspace) => 15
    case _ => -1
  }

  /** The row of the default table that holds a joypad id, or -1. */
  function IdSlot(id: u32): int
  {
    match id
    case 5 => 0 case 6 => 1 case 4 => 2 case 7 => 3 case 0 => 4 case 8 => 5 case 9 => 6 case 1 => 7
    case 10 => 8 case 11 => 9 case 12 => 10 case 13 => 11 case 14 => 12 case 15 => 13 case 3 => 14 case 2 => 15
    case _ => -1
  }

  /** Each row of the default table is the only row with its key and the only row with its id. */
  lemma DefaultSlots()
    ensures |DefaultKeyMaps()| == 16
    ensures forall i :: 0 <= i < 16 ==> (KeySlot(DefaultKeyMaps()[i].native) == i && IdSlot(DefaultKeyMaps()[i].retro) == i
      && DefaultKeyMaps()[i].retro < 16 && !DefaultKeyMaps()[i].pressed)
  {
  }

  /** The table with `pressed` set on the entries for key `native`. */
  predicate PressedUpdate(before: seq<KeyboardKeyMap>, after: seq<KeyboardKeyMap>, native: PhysicalKey, pressed: bool)
  {
    |after| == |before|
    && forall i :: 0 <= i < |before| ==>
      after[i] == (if before[i].native == native then before[i].(pressed := pressed) else before[i])
  }

  /** The first entry whose id, cast to `i16`, is `keyId`. */
  function FirstWithId(km: seq<KeyboardKeyMap>, keyId: int): (r: Option<nat>)
    ensures r.Some? ==> r.value < |km| && WrapI16(km[r.value].retro) == keyId
    ensures r.Some? ==> forall j :: 0 <= j < r.value ==> WrapI16(km[j].retro) != keyId
    ensures r.None? ==> forall j :: 0 <= j < |km| ==> WrapI16(km[j].retro) != keyId
  {
    if km == [] then None
    else if WrapI16(km[0].retro) == keyId then Some(0)
    else match FirstWithId(km[1..], keyId)
      case None => None
      case Some(i) => Some(i + 1)
  }

  /** `get_key_pressed` on a table: 1 or 0 from the first entry with the id, 0 when no entry has it. */
  function KeyState(km: seq<KeyboardKeyMap>, keyId: int): int
  {
    match FirstWithId(km, keyId)
    case None => 0
    case Some(i) => if km[i].pressed then 1 else 0
  }

  /** On a well-formed table a key reads 1 exactly when the entry for that id is held. */
  lemma KeyStateOfWellFormed(km: seq<KeyboardKeyMap>, keyId: int)
    requires WellFormed(km)
    ensures KeyState(km, keyId) == 1 <==> Held(km, keyId)
    ensures KeyState(km, keyId) == 0 || KeyState(km, keyId) == 1
  {
    forall j | 0 <= j < |km|
      ensures WrapI16(km[j].retro) == km[j].retro
    {
    }
  }

  /** Some entry with id `id` is held. */
  predicate Held(km: seq<KeyboardKeyMap>, id: int)
  {
    exists i :: 0 <= i < |km| && km[i].retro == id && km[i].pressed
  }

  /** What one entry adds to the mask: its bit when held. */
  function Contribution(k: KeyboardKeyMap): bv16
    requires k.retro < 16
  {
    if k.pressed then BitOf(k.retro) else 0
  }

  /** The bits of the held entries of a table whose ids are all joypad buttons. */
  function Mask(km: seq<KeyboardKeyMap>): bv16
    requires forall i :: 0 <= i < |km| ==> km[i].retro < 16
  {
    if km == [] then 0 else Mask(km[..|km| - 1]) | Contribution(km[|km| - 1])
  }

  /** Bit `b` of the mask is set exactly when some entry with id `b` is held. */
  lemma {:induction false} MaskBits(km: seq<KeyboardKeyMap>, b: nat)
    requires (forall i :: 0 <= i < |km| ==> km[i].retro < 16) && b < 16
    ensures Mask(km) & BitOf(b) != 0 <==> Held(km, b)
  {
    if km != [] {
      var n := |km| - 1;
      MaskBits(km[..n], b);
      HeldSplit(km, b);
      OrContribution(Mask(km[..n]), km[n], b);
    }
  }

  lemma OrContribution(m: bv16, k: KeyboardKeyMap, b: nat)
    requires k.retro < 16 && b < 16
    ensures (m | Contribution(k)) & BitOf(b) != 0 <==> (m & BitOf(b) != 0 || (k.pressed && k.retro == b))
  {
    if k.pressed {
      OrBit(m, k.retro, b);
    }
  }

  /** Held on a table is held on all but the last entry, or held by the last. */
  lemma HeldSplit(km: seq<KeyboardKeyMap>, id: int)
    requires km != []
    ensures Held(km, id) <==> (Held(km[..|km| - 1], id) || (km[|km| - 1].retro == id && km[|km| - 1].pressed))
  {
    var n := |km| - 1;
    if Held(km, id) {
      var i :| 0 <= i < |km| && km[i].retro == id && km[i].pressed;
      if i < n {
        assert km[..n][i] == km[i];
      }
    }
    if Held(km[..n], id) {
      var i :| 0 <= i < n && km[..n][i].retro == id && km[..n][i].pressed;
      assert km[i] == km[..n][i];
    }
  }

  /**
   * On a well-formed table the source's running sum `bitmasks += pressed << retro`
   * never carries: entry `i`'s bit is still clear in the mask of the entries before it.
   */
  lemma SumIsOr(km: seq<KeyboardKeyMap>, i: nat)
    requires WellFormed(km) && i < |km|
    ensures Mask(km[..i + 1]) == Mask(km[..i]) + Contribution(km[i])
  {
    MaskUnfold(km, i);
    PrefixClear(km, i);
    AddDisjoint(Mask(km[..i]), Contribution(km[i]));
  }

  lemma MaskUnfold(km: seq<KeyboardKeyMap>, i: nat)
    requires (forall j :: 0 <= j < |km| ==> km[j].retro < 16) && i < |km|
    ensures Mask(km[..i + 1]) == Mask(km[..i]) | Contribution(km[i])
  {
    assert km[..i + 1][..i] == km[..i];
    assert km[..i + 1][i] == km[i];
  }

  /** On a well-formed table entry `i`'s bit is clear in the mask of the entries before it. */
  lemma PrefixClear(km: seq<KeyboardKeyMap>, i: nat)
    requires WellFormed(km) && i < |km|
    ensures Mask(km[..i]) & Contribution(km[i]) == 0
  {
    var front := km[..i];
    if km[i].pressed {
      MaskBits(front, km[i].retro);
      forall j | 0 <= j < i
        ensures front[j].retro != km[i].retro
      {
        assert front[j] == km[j];
      }
    }
  }

  lemma AddDisjoint(m: bv16, c: bv16)
    requires m & c == 0
    ensures m + c == m | c
  {
  }

  lemma OrBit(m: bv16, r: nat, b: nat)
    requires r < 16 && b < 16
    ensures (m | BitOf(r)) & BitOf(b) != 0 <==> (m & BitOf(b) != 0 || b == r)
  {
  }

  /** A table with nothing held reads as the empty mask. */
  lemma {:induction false} MaskReleased(km: seq<KeyboardKeyMap>)
    requires forall i :: 0 <= i < |km| ==> km[i].retro < 16 && !km[i].pressed
    ensures Mask(km) == 0
  {
    if km != [] {
      MaskReleased(km[..|km| - 1]);
    }
  }

  class Keyboard {
    var retroPort: i16
    var retroType: u32
    var keyMap: seq<KeyboardKeyMap>

    predicate Valid()
      reads this
    {
      WellFormed(keyMap)
    }

    /** `Keyboard::new`: port 0, a joypad, the default table with every key released. */
    constructor()
      ensures retroPort == 0 && retroType == RETRO_DEVICE_JOYPAD && keyMap == DefaultKeyMaps()
      ensures Valid()
    {
      retroPort := 0;
      retroType := RETRO_DEVICE_JOYPAD;
      keyMap := DefaultKeyMaps();
      DefaultKeyMapsWellFormed();
    }

    /** `set_key_pressed`: every entry for `native` takes the new state; nothing else changes. */
    method SetKeyPressed(native: PhysicalKey, pressed: bool)
      modifies this
      ensures PressedUpdate(old(keyMap), keyMap, native, pressed)
      ensures retroPort == old(retroPort) && retroType == old(retroType)
      ensures old(Valid()) ==> Valid()
    {
      var i := 0;
      while i < |keyMap|
        invariant 0 <= i <= |keyMap| == |old(keyMap)|
        invariant forall j :: 0 <= j < i ==>
          keyMap[j] == (if old(keyMap)[j].native == native then old(keyMap)[j].(pressed := pressed) else old(keyMap)[j])
        invariant forall j :: i <= j < |keyMap| ==> keyMap[j] == old(keyMap)[j]
        invariant retroPort == old(retroPort) && retroType == old(retroType)
      {
        if keyMap[i].native == native {
          keyMap := keyMap[i := keyMap[i].(pressed := pressed)];
        }
        i := i + 1;
      }
    }

    /** `get_key_pressed`: 1 if the first entry with the id is held, 0 if it is not or there is none. */
    method GetKeyPressed(keyId: i16) returns (r: i16)
      ensures r == KeyState(keyMap, keyId)
    {
      var i := 0;
      while i < |keyMap|
        invariant 0 <= i <= |keyMap|
        invariant forall j :: 0 <= j < i ==> WrapI16(keyMap[j].retro) != keyId
      {
        if WrapI16(keyMap[i].retro) == keyId {
          assert FirstWithId(keyMap, keyId) == Some(i);
          return if keyMap[i].pressed then 1 else 0;
        }
        i := i + 1;
      }
      r := 0;
    }

    /** `get_key_bitmasks`: the held entries' bits, read as `i16`. */
    method GetKeyBitmasks() returns (r: i16)
      requires Valid()
      ensures r == ToI16(Mask(keyMap))
    {
      var mask: bv16 := 0;
      var i := 0;
      while i < |keyMap|
        invariant 0 <= i <= |keyMap|
        invariant mask == Mask(keyMap[..i])
      {
        SumIsOr(keyMap, i);
        mask := mask + Contribution(keyMap[i]);
        i := i + 1;
      }
      assert keyMap[..i] == keyMap;
      r := ToI16(mask);
    }
  }

  /** A new keyboard reads as the empty mask and every key as released. */
  lemma FreshKeyboardIdle(keyId: int)
    ensures Mask(DefaultKeyMaps()) == 0
    ensures KeyState(DefaultKeyMaps(), keyId) == 0
  {
    DefaultKeyMapsWellFormed();
    MaskReleased(DefaultKeyMaps());
    KeyStateOfWellFormed(DefaultKeyMaps(), keyId);
  }

  /** After a key of a well-formed table is set, its id reads back that state. */
  lemma PressThenRead(before: seq<KeyboardKeyMap>, after: seq<KeyboardKeyMap>, i: nat, pressed: bool)
    requires WellFormed(before) && i < |before|
    requires PressedUpdate(before, after, before[i].native, pressed)
    ensures WellFormed(after)
    ensures KeyState(after, before[i].retro) == (if pressed then 1 else 0)
  {
    assert forall j :: 0 <= j < |after| ==> after[j].retro == before[j].retro && after[j].native == before[j].native;
    KeyStateOfWellFormed(after, before[i].retro);
    assert after[i].retro == before[i].retro && after[i].pressed == pressed;
  }
}
