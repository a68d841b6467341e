/** Small value types shared by the model: Rust's `Option` and `Result`,
    and the fixed-width unsigned integers the program passes around. */
module Base {

  datatype Option<+T> = None | Some(value: T) {
    /** `unwrap_or(default)` */
    function GetOr(default: T): T {
      match this
      case Some(v) => v
      case None => default
    }
  }

  datatype Result<+T, +E> = Ok(value: T) | Err(error: E)

  const U32_LIMIT: nat := 0x1_0000_0000
  const U32_MAX: nat := 0xFFFF_FFFF

  type byte = x: int | 0 <= x < 0x100
  type u32 = x: int | 0 <= x < 0x1_0000_0000
  type u64 = x: int | 0 <= x < 0x1_0000_0000_0000_0000

  /** Rust's `x as u32` on a `u64`: keep the low 32 bits. */
  function AsU32(x: u64): (r: u32)
    ensures x < U32_LIMIT ==> r == x
    ensures r < U32_LIMIT && (x - r) % U32_LIMIT == 0
  {
    x % U32_LIMIT
  }
}
