/** The gamepad joypad table: gilrs buttons to joypad ids, and the display names of the buttons. */
module GamepadKeyMap {
  import opened Ints
  import opened Joypad

  /** `gilrs::Button`. */
  datatype Button =
    | South | East | North | West | C | Z
    | LeftTrigger | LeftTrigger2 | RightTrigger | RightTrigger2
    | Select | Start | Mode | LeftThumb | RightThumb
    | DPadUp | DPadDown | DPadLeft | DPadRight | Unknown

  datatype GamePadKeyMap = GamePadKeyMap(native: Button, retro: u32, pressed: bool)

  /** `GamePadKeyMap::new`: an entry that starts out pressed. */
  function NewKeyMap(native: Button, retro: u32): (k: GamePadKeyMap)
    ensures k.native == native && k.retro == retro && k.pressed
  {
    GamePadKeyMap(native, retro, true)
  }

  /** `get_key_name_from_native_button`. */
  function NativeButtonName(b: Button): string
  {
    match b
    case DPadUp => "DPad-up"
    case DPadDown => "DPad-down"
    case DPadLeft => "DPad-left"
    case DPadRight => "DPad-right"
    case South => "B"
    case East => "A"
    case North => "X"
    case West => "Y"
    case LeftTrigger => "L"
    case RightTrigger => "R"
    case LeftTrigger2 => "L2"
    case RightTrigger2 => "R2"
    case LeftThumb => "LeftThumb"
    case RightThumb => "RightThumb"
    case Start => "Start"
    case Select => "Select"
    case Mode => "mode"
    case _ => "Chave desconhecida"
  }

  const UNKNOWN_NAME := "Chave desconhecida"

  /** The buttons the name table lists. */
  predicate Named(b: Button)
  {
    !(b.C? || b.Z? || b.Unknown?)
  }

  /** Listed buttons have pairwise-distinct names, none of them the fallback; the rest get the fallback. */
  lemma NativeButtonNames(a: Button, b: Button)
    ensures NativeButtonName(Mode) == "mode"
    ensures !Named(a) <==> NativeButtonName(a) == UNKNOWN_NAME
    ensures Named(a) && Named(b) && a != b ==> NativeButtonName(a) != NativeButtonName(b)
  {
  }

  /** `get_default_key_maps`: the directional pad, the face buttons by position, triggers, thumbs, start and select. */
  function DefaultKeyMaps(): seq<GamePadKeyMap>
  {
    [ NewKeyMap(DPadDown, RETRO_DEVICE_ID_JOYPAD_DOWN),
      NewKeyMap(DPadLeft, RETRO_DEVICE_ID_JOYPAD_LEFT),
      NewKeyMap(DPadUp, RETRO_DEVICE_ID_JOYPAD_UP),
      NewKeyMap(DPadRight, RETRO_DEVICE_ID_JOYPAD_RIGHT),
      NewKeyMap(South, RETRO_DEVICE_ID_JOYPAD_B),
      NewKeyMap(East, RETRO_DEVICE_ID_JOYPAD_A),
      NewKeyMap(North, RETRO_DEVICE_ID_JOYPAD_X),
      NewKeyMap(West, RETRO_DEVICE_ID_JOYPAD_Y),
      NewKeyMap(LeftTrigger, RETRO_DEVICE_ID_JOYPAD_L),
      NewKeyMap(RightTrigger, RETRO_DEVICE_ID_JOYPAD_R),
      NewKeyMap(LeftTrigger2, RETRO_DEVICE_ID_JOYPAD_L2),
      NewKeyMap(RightTrigger2, RETRO_DEVICE_ID_JOYPAD_R2),
      NewKeyMap(LeftThumb, RETRO_DEVICE_ID_JOYPAD_L3),
      NewKeyMap(RightThumb, RETRO_DEVICE_ID_JOYPAD_R3),
      NewKeyMap(Start, RETRO_DEVICE_ID_JOYPAD_START),
      NewKeyMap(Select, RETRO_DEVICE_ID_JOYPAD_SELECT) ]
  }

  /** The id a button stands for in a table, if any entry has it. */
  function IdOf(km: seq<GamePadKeyMap>, b: Button): int
  {
    if km == [] then -1 else if km[0].native == b then km[0].retro else IdOf(km[1..], b)
  }

  /** Where each joypad id sits in the default table: the inverse of its id column. */
  function DefaultSlotOf(r: int): int
  {
    match r
    case 5 => 0 case 6 => 1 case 4 => 2 case 7 => 3
    case 0 => 4 case 8 => 5 case 9 => 6 case 1 => 7
    case 10 => 8 case 11 => 9 case 12 => 10 case 13 => 11
    case 14 => 12 case 15 => 13 case 3 => 14 case 2 => 15
    case _ => -1
  }

  /** Where each button sits in the default table: the inverse of its button column. */
  function DefaultSlotOfButton(b: Button): int
  {
    match b
    case DPadDown => 0 case DPadLeft => 1 case DPadUp => 2 case DPadRight => 3
    case South => 4 case East => 5 case North => 6 case West => 7
    case LeftTrigger => 8 case RightTrigger => 9 case LeftTrigger2 => 10 case RightTrigger2 => 11
    case LeftThumb => 12 case RightThumb => 13 case Start => 14 case Select => 15
    case _ => -1
  }

  /** The default table has sixteen entries, each with a joypad id below 16, no id twice. */
  lemma DefaultKeyMapsIds()
    ensures |DefaultKeyMaps()| == 16
    ensures forall i :: 0 <= i < 16 ==> DefaultKeyMaps()[i].retro < 16
    ensures forall i, j :: 0 <= i < j < 16 ==> DefaultKeyMaps()[i].retro != DefaultKeyMaps()[j].retro
  {
    var km := DefaultKeyMaps();
    forall i | 0 <= i < 16
      ensures km[i].retro < 16 && DefaultSlotOf(km[i].retro) == i
    {
    }
  }

  /** Every default entry has a named button, none twice. */
  lemma DefaultKeyMapsButtons()
    ensures |DefaultKeyMaps()| == 16
    ensures forall i :: 0 <= i < 16 ==> Named(DefaultKeyMaps()[i].native)
    ensures forall i, j :: 0 <= i < j < 16 ==> DefaultKeyMaps()[i].native != DefaultKeyMaps()[j].native
  {
    var km := DefaultKeyMaps();
    forall i | 0 <= i < 16
      ensures Named(km[i].native) && DefaultSlotOfButton(km[i].native) == i
    {
    }
  }

  /** The entry at `i` answers for its button when no earlier entry has that button. */
  lemma {:induction false} IdOfAt(km: seq<GamePadKeyMap>, i: nat)
    requires i < |km| && forall j :: 0 <= j < i ==> km[j].native != km[i].native
    ensures IdOf(km, km[i].native) == km[i].retro
  {
    if i > 0 {
      assert forall j :: 0 <= j < i - 1 ==> km[1..][j] == km[j + 1];
      IdOfAt(km[1..], i - 1);
    }
  }

  /** The face buttons follow the positional layout: South is B, East is A, North is X, West is Y. */
  lemma DefaultFaceButtons()
    ensures IdOf(DefaultKeyMaps(), South) == RETRO_DEVICE_ID_JOYPAD_B
    ensures IdOf(DefaultKeyMaps(), East) == RETRO_DEVICE_ID_JOYPAD_A
    ensures IdOf(DefaultKeyMaps(), North) == RETRO_DEVICE_ID_JOYPAD_X
    ensures IdOf(DefaultKeyMaps(), West) == RETRO_DEVICE_ID_JOYPAD_Y
  {
    DefaultIdAt(4);
    DefaultIdAt(5);
    DefaultIdAt(6);
    DefaultIdAt(7);
  }

  /** A face-button entry of the default table is the first one with its button. */
  lemma DefaultIdAt(i: nat)
    requires i == 4 || i == 5 || i == 6 || i == 7
    ensures IdOf(DefaultKeyMaps(), DefaultKeyMaps()[i].native) == DefaultKeyMaps()[i].retro
  {
    IdOfAt(DefaultKeyMaps(), i);
  }
}
