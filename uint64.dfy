/**
 Unsigned 64-bit integers and the three primitive operations of Rust's `u64`
 that the clock relies on: `checked_add`, `checked_sub` and `saturating_sub`.
 Integers in Dafny are unbounded, so the width is made explicit here.
 */
module UInt64 {
  import opened Wrappers

  /** `u64::MAX` */
  const MAX: int := 0xFFFF_FFFF_FFFF_FFFF

  type U64 = x: int | 0 <= x <= MAX

  /** `u64::checked_add`: the exact sum, or nothing when it does not fit. */
  function CheckedAdd(a: U64, b: U64): (r: Option<U64>)
    ensures r.None? <==> a + b > MAX
    ensures r.Some? ==> r.value == a + b
  {
    if a + b <= MAX then Some(a + b) else None
  }

  /** `u64::checked_sub`: the exact difference, or nothing when it would be negative. */
  function CheckedSub(a: U64, b: U64): (r: Option<U64>)
    ensures r.None? <==> b > a
    ensures r.Some? ==> r.value == a - b
  {
    if b <= a then Some(a - b) else None
  }

  /** `u64::saturating_sub`: the difference, clamped at zero instead of going negative. */
  function SaturatingSub(a: U64, b: U64): (r: U64)
    ensures r <= a
    ensures b <= a ==> r == a - b
    ensures a < b ==> r == 0
  {
    if b <= a then a - b else 0
  }
}
