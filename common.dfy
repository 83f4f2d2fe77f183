/** Shared vocabulary: optional values (a C pointer that may be NULL),
    bytes and the machine word sizes of the x86-64 target. */
module Common {

  datatype Option<+T> = None | Some(value: T)

  /** An unsigned 8-bit value (`uint8_t`, `unsigned char`). */
  type Byte = b: int | 0 <= b < 256

  const U8_LIMIT: nat := 0x100
  const U32_LIMIT: nat := 0x1_0000_0000
  const U64_LIMIT: nat := 0x1_0000_0000_0000_0000

  /** `SIZE_MAX` on x86-64 (`size_t` is 64 bits wide). */
  const SIZE_MAX: nat := U64_LIMIT - 1
}
