/**
 * Fixed-width integer types, reserved values and the decoded entry record
 * of the header-map ("hmap") format.
 */
module Types {

  type u8 = x: int | 0 <= x < 0x100
  type u16 = x: int | 0 <= x < 0x1_0000
  type u32 = x: int | 0 <= x < 0x1_0000_0000

  /** A string offset equal to this value marks an unused bucket slot. */
  const STRING_SECTION_OFFSET_RESERVED: u32 := 0
  /** The only supported format version. */
  const VERSION_1: u16 := 1
  /** The value the reserved header field must hold. */
  const RESERVED: u16 := 0

  /**
   * One header-map entry: an `#include` spelling `key` maps to the path
   * `prefix + suffix`. Each string is held as its UTF-8 bytes, without the
   * terminating NUL.
   */
  datatype Entry = Entry(key: seq<u8>, prefix: seq<u8>, suffix: seq<u8>)
}
