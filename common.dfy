/** Shared value types: the unsigned byte of the C++ source and an optional result. */
module Common {

  /** `std::uint8_t` / `base64::byte`. */
  type byte = x: int | 0 <= x < 0x100

  /** The source signals failure by a null pointer or an empty container; the model by `None`. */
  datatype Option<+T> = None | Some(value: T)
}
