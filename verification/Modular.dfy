// Sums in 64-bit unsigned arithmetic.
module Modular {

  const U64: nat := 0x1_0000_0000_0000_0000

  lemma {:induction false} DropMultiple(x: nat, k: nat)
    ensures (x + U64 * k) % U64 == x % U64
  {
    if k > 0 {
      DropMultiple(x, k - 1);
      assert x + U64 * k == (x + U64 * (k - 1)) + U64;
    }
  }

  // Reducing early does not change a sum.
  lemma AddMod(x: nat, y: nat)
    ensures (x % U64 + y) % U64 == (x + y) % U64
  {
    var q := x / U64;
    assert x + y == (x % U64 + y) + U64 * q;
    DropMultiple(x % U64 + y, q);
  }
}
