/** Machine numbers: Rust's `u64` with its saturating operations. */
module Numbers {

  const U64_MAX: nat := 0xFFFF_FFFF_FFFF_FFFF

  type u64 = t: nat | t <= U64_MAX

  function SaturatingAdd(a: u64, b: u64): u64 { if a + b <= U64_MAX then a + b else U64_MAX }

  function SaturatingSub(a: nat, b: nat): nat { if a >= b then a - b else 0 }

  function Max(a: nat, b: nat): nat { if a >= b then a else b }
}
