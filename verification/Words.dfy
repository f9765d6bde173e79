/** Unsigned 64-bit arithmetic that stops at its ends. */
module Words {
  const U64_MAX: nat := 0xffff_ffff_ffff_ffff

  type U8 = x: int | 0 <= x < 256

  type U64 = x: int | 0 <= x <= U64_MAX

  function SaturatingAdd(a: nat, b: nat): nat {
    if a + b > U64_MAX then U64_MAX else a + b
  }

  function SaturatingSub(a: nat, b: nat): nat {
    if a < b then 0 else a - b
  }
}
