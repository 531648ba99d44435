/** Bitwise or on numbers. */
module Bits {

  function Pow2(k: nat): (p: nat)
    ensures p > 0
  {
    if k == 0 then 1 else 2 * Pow2(k - 1)
  }

  /** `x | y`, bit by bit. */
  function Or(x: nat, y: nat): nat
    decreases x + y
  {
    if x == 0 then y
    else if y == 0 then x
    else (if x % 2 == 1 || y % 2 == 1 then 1 else 0) + 2 * Or(x / 2, y / 2)
  }

  /** Numbers that share no bit: or is addition. */
  lemma {:induction false} OrIsPlus(x: nat, y: nat, k: nat)
    requires x < Pow2(k)
    ensures Or(x, y * Pow2(k)) == x + y * Pow2(k)
  {
    if k > 0 && x > 0 && y > 0 {
      var p := Pow2(k - 1);
      assert y * Pow2(k) == 2 * (y * p);
      OrIsPlus(x / 2, y, k - 1);
    }
  }

  /** Below the lowest bit of y * 2^k, or stays there. */
  lemma {:induction false} OrLow(y: nat, a: nat, b: nat, k: nat)
    requires a < Pow2(k) && b < Pow2(k)
    ensures Or(y * Pow2(k) + a, b) == y * Pow2(k) + Or(a, b) && Or(a, b) < Pow2(k)
  {
    if k == 0 {
      assert a == 0 && b == 0;
    } else {
      var p := Pow2(k - 1);
      assert y * Pow2(k) == 2 * (y * p);
      OrLow(y, a / 2, b / 2, k - 1);
      assert (2 * (y * p) + a) / 2 == y * p + a / 2 && (2 * (y * p) + a) % 2 == a % 2;
    }
  }
}
