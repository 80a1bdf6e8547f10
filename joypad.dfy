/** The libretro joypad device and its button ids (`RETRO_DEVICE_ID_JOYPAD_*` in libretro.h). */
module Joypad {
  const RETRO_DEVICE_JOYPAD: nat := 1

  const RETRO_DEVICE_ID_JOYPAD_B: nat := 0
  const RETRO_DEVICE_ID_JOYPAD_Y: nat := 1
  const RETRO_DEVICE_ID_JOYPAD_SELECT: nat := 2
  const RETRO_DEVICE_ID_JOYPAD_START: nat := 3
  const RETRO_DEVICE_ID_JOYPAD_UP: nat := 4
  const RETRO_DEVICE_ID_JOYPAD_DOWN: nat := 5
  const RETRO_DEVICE_ID_JOYPAD_LEFT: nat := 6
  const RETRO_DEVICE_ID_JOYPAD_RIGHT: nat := 7
  const RETRO_DEVICE_ID_JOYPAD_A: nat := 8
  const RETRO_DEVICE_ID_JOYPAD_X: nat := 9
  const RETRO_DEVICE_ID_JOYPAD_L: nat := 10
  const RETRO_DEVICE_ID_JOYPAD_R: nat := 11
  const RETRO_DEVICE_ID_JOYPAD_L2: nat := 12
  const RETRO_DEVICE_ID_JOYPAD_R2: nat := 13
  const RETRO_DEVICE_ID_JOYPAD_L3: nat := 14
  const RETRO_DEVICE_ID_JOYPAD_R3: nat := 15

  /** Asking for this id reads the whole joypad as a bitmask. */
  const RETRO_DEVICE_ID_JOYPAD_MASK: nat := 256

  /** Bit `r` of a 16-bit joypad mask, `1 << r`, spelt out per id. */
  function BitOf(r: nat): bv16
    requires r < 16
  {
    if r == 0 then 0x1 else if r == 1 then 0x2 else if r == 2 then 0x4 else if r == 3 then 0x8
    else if r == 4 then 0x10 else if r == 5 then 0x20 else if r == 6 then 0x40 else if r == 7 then 0x80
    else if r == 8 then 0x100 else if r == 9 then 0x200 else if r == 10 then 0x400 else if r == 11 then 0x800
    else if r == 12 then 0x1000 else if r == 13 then 0x2000 else if r == 14 then 0x4000 else 0x8000
  }

  /** The table is the shift. */
  lemma BitOfIsShift(r: bv16)
    requires r < 16
    ensures BitOf(r as nat) == (1 as bv16) << r
  {
  }

  /** A 16-bit pattern read back as `i16`. */
  function ToI16(m: bv16): int
  {
    if m as int < 0x8000 then m as int else m as int - 0x1_0000
  }
}
