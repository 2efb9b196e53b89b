/** Small shared vocabulary: an optional value (a possibly-null handle) and
    the 32-bit unsigned integers the networking layer uses for type codes,
    header sizes and connection identifiers. */
module Common {

  datatype Option<T> = None | Some(value: T)

  /** One past the largest value of a uint32_t. */
  const U32Limit: nat := 0x1_0000_0000

  newtype u32 = x: int | 0 <= x < 0x1_0000_0000

  /** The implicit conversion of an unsigned size_t into a uint32_t:
      the value is reduced modulo 2^32. */
  function ToU32(n: nat): (r: u32)
    ensures n < U32Limit ==> r as int == n
    ensures r as int < U32Limit && (r as int - n) % U32Limit == 0
  {
    (n % U32Limit) as u32
  }

  /** `x++` on a uint32_t: wraps to 0 after the largest value. */
  function IncU32(x: u32): (r: u32)
    ensures x as int + 1 < U32Limit ==> r as int == x as int + 1
    ensures x as int + 1 == U32Limit ==> r == 0
  {
    ToU32(x as int + 1)
  }
}
