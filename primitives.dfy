/** Fixed-width integers of the source language and the powers of two used to decode them. */
module Primitives {

  /** Rust's `i32`. */
  type I32 = n: int | -0x8000_0000 <= n < 0x8000_0000

  /** Rust's `u32`. */
  type U32 = n: int | 0 <= n < 0x1_0000_0000

  const I32Min: I32 := -0x8000_0000
  const I32Max: I32 := 0x7FFF_FFFF

  /** 2 to the power k. */
  function Pow2(k: nat): (p: nat)
    ensures p >= 1
    ensures k >= 1 ==> p >= 2
  {
    if k == 0 then 1 else 2 * Pow2(k - 1)
  }

  lemma {:induction false} Pow2Add(a: nat, b: nat)
    ensures Pow2(a + b) == Pow2(a) * Pow2(b)
    decreases b
  {
    if b > 0 {
      Pow2Add(a, b - 1);
      Regroup(Pow2(a), Pow2(b - 1));
    }
  }

  lemma Regroup(x: nat, y: nat)
    ensures 2 * (x * y) == x * (2 * y)
  {
  }

  lemma {:induction false} Pow2StrictlyIncreasing(a: nat, b: nat)
    requires a < b
    ensures Pow2(a) < Pow2(b)
    decreases b - a
  {
    if a + 1 < b {
      Pow2StrictlyIncreasing(a + 1, b);
    }
  }

  /** Two's-complement wrap-around into `i32`: what the arithmetic of a Rust
      release build (overflow checks off) yields for the exact value n. */
  function WrapI32(n: int): (r: I32)
    ensures (r - n) % 0x1_0000_0000 == 0
    ensures I32Min <= n <= I32Max ==> r == n
  {
    var m := n % 0x1_0000_0000;
    if m < 0x8000_0000 then m else m - 0x1_0000_0000
  }
}
