/** Machine integers and the outcome types every other module uses. */
module Common {
  /** The sentinel the server reads as "no id chosen" and the value counters saturate at. */
  const U64_MAX := 0xFFFF_FFFF_FFFF_FFFF

  type u64 = n: int | 0 <= n <= 0xFFFF_FFFF_FFFF_FFFF

  datatype Option<+T> = None | Some(value: T)

  datatype Result<+T, +E> = Ok(value: T) | Err(error: E)

  /** `n.saturating_add(1)` on a 64-bit counter. */
  function SatSucc(n: u64): u64 {
    if n == U64_MAX then U64_MAX else n + 1
  }

  /** `a.saturating_sub(b)`. */
  function SatSub(a: u64, b: u64): u64 {
    if a < b then 0 else a - b
  }

  function Max(a: u64, b: u64): u64 {
    if a < b then b else a
  }
}
