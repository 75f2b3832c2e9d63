/** Key codes above the characters, shared by kernel and programs (src/shared/sbos_abi.h). */
module KeyCodes {
  const KEY_UP: int := 0x100
  const KEY_DOWN: int := 0x101
  const KEY_LEFT: int := 0x102
  const KEY_RIGHT: int := 0x103
  const KEY_DEL: int := 0x104
  const KEY_HOME: int := 0x105
  const KEY_END: int := 0x106
}
