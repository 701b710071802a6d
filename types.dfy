/** Fixed-width integer types of the firmware and a small Option wrapper. */
module Types {

  /** The C `uint8_t`. */
  newtype byte = x: int | 0 <= x < 0x100

  /** The C `uint16_t`. */
  newtype u16 = x: int | 0 <= x < 0x1_0000

  /** The C `uint32_t`. */
  newtype u32 = x: int | 0 <= x < 0x1_0000_0000

  /** Unsigned 32-bit addition as C performs it: the sum wraps modulo 2^32. */
  function AddU32(a: u32, b: u32): (r: u32)
    ensures a as int + b as int < 0x1_0000_0000 ==> r as int == a as int + b as int
    ensures a as int + b as int >= 0x1_0000_0000 ==> r as int == a as int + b as int - 0x1_0000_0000
  {
    ((a as int + b as int) % 0x1_0000_0000) as u32
  }

  datatype Option<T> = None | Some(value: T)
}
