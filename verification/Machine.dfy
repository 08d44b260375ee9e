/** Fixed-width unsigned integers with the checked, saturating and wrapping
    operations the Rust sources rely on. */
module Machine {
  import opened Wrappers

  const U64_LIMIT: int := 0x1_0000_0000_0000_0000
  const U64_MAX: u64 := 0xFFFF_FFFF_FFFF_FFFF

  type u8 = x: int | 0 <= x < 0x100
  type u16 = x: int | 0 <= x < 0x1_0000
  type u32 = x: int | 0 <= x < 0x1_0000_0000
  type u64 = x: int | 0 <= x < 0x1_0000_0000_0000_0000
  type i32 = x: int | -0x8000_0000 <= x < 0x8000_0000

  // Two's complement: `i32` and `u32` values with the same bits.

  function AsU32(x: i32): u32 {
    if x < 0 then x + 0x1_0000_0000 else x
  }

  function AsI32(x: u32): i32 {
    if x >= 0x8000_0000 then x - 0x1_0000_0000 else x
  }

  function CheckedAdd(a: nat, b: nat): Option<u64> {
    if a + b < U64_LIMIT then Some(a + b) else None
  }

  function CheckedMul(a: u64, b: u64): Option<u64> {
    var product: nat := Times(a, b);
    if product < U64_LIMIT then Some(product) else None
  }

  function SaturatingAdd(a: nat, b: nat): u64 {
    if a + b < U64_LIMIT then a + b else U64_MAX
  }

  function SaturatingSub(a: u64, b: u64): u64 {
    if a < b then 0 else a - b
  }

  /** `clock.wrapping_add(1).max(1)`: a clock never shows zero after a tick. */
  function Tick(clock: u64): u64 {
    if clock == U64_MAX then 1 else clock + 1
  }

  /** Multiplication of natural numbers, named so that proofs can treat a product
      as one term. */
  function Times(a: nat, b: nat): nat {
    assert a * b >= 0 by { TimesNonNegative(a, b); }
    a * b
  }

  lemma TimesNonNegative(a: nat, b: nat)
    ensures a * b >= 0
  {}

  /** The left-to-right product of a list. */
  function Product(values: seq<u64>): nat {
    if values == [] then 1 else Times(Product(values[..|values| - 1]), values[|values| - 1])
  }

  /** `values.iter().try_fold(1, |acc, v| acc.checked_mul(v))`. */
  function CheckedProduct(values: seq<u64>): Option<u64> {
    if values == [] then Some(1)
    else
      match CheckedProduct(values[..|values| - 1])
      case None => None
      case Some(acc) => CheckedMul(acc, values[|values| - 1])
  }

  /** The stepwise overflow checks accept a list exactly when every prefix
      product is representable, and then return the full product. */
  lemma {:induction false} CheckedProductSteps(values: seq<u64>)
    ensures CheckedProduct(values).Some? <==> forall i :: 0 <= i <= |values| ==> Product(values[..i]) < U64_LIMIT
    ensures CheckedProduct(values).Some? ==> CheckedProduct(values).value == Product(values)
  {
    assert values[..|values|] == values;
    if values == [] {
    } else {
      var front := values[..|values| - 1];
      CheckedProductSteps(front);
      forall i | 0 <= i <= |front| ensures values[..i] == front[..i] {}
    }
  }

  /** Over non-zero factors a prefix never exceeds the whole, so the stepwise
      checks fail exactly when the full product does not fit. */
  lemma {:induction false} CheckedProductExact(values: seq<u64>)
    requires forall i :: 0 <= i < |values| ==> values[i] > 0
    ensures Product(values) > 0
    ensures CheckedProduct(values) == if Product(values) < U64_LIMIT then Some(Product(values)) else None
  {
    if values == [] {
    } else {
      var front := values[..|values| - 1];
      var last := values[|values| - 1];
      CheckedProductExact(front);
      assert Product(front) <= Times(Product(front), last) by {
        TimesGrows(Product(front), last);
      }
    }
  }

  lemma TimesGrows(a: nat, b: nat)
    requires b > 0
    ensures Times(a, b) >= a
    ensures a > 0 ==> Times(a, b) > 0
  {
    assert a * b == a + a * (b - 1);
    TimesNonNegative(a, b - 1);
  }
}
