/** Exclusive or on the low n bits of integers. */
module Bits {

  function Xor(a: int, b: int, n: nat): int
    decreases n
  {
    if n == 0 then 0 else (a + b) % 2 + 2 * Xor(a / 2, b / 2, n - 1)
  }

  lemma {:induction false} XorSelf(a: int, n: nat)
    ensures Xor(a, a, n) == 0
    decreases n
  {
    if n == 0 {
    } else {
      XorSelf(a / 2, n - 1);
    }
  }

  lemma XorOdd(a: int, b: int, n: nat)
    requires b % 2 == 1 && n > 0
    ensures Xor(a, b, n) % 2 != a % 2
  {
  }

  function Pow2(n: nat): nat { if n == 0 then 1 else 2 * Pow2(n - 1) }

  lemma Doubled(n: nat)
    requires n > 0
    ensures Pow2(n) == 2 * Pow2(n - 1)
  {
  }

  lemma Parity(a: int, b: int)
    requires 0 <= a < 2 && 0 <= b < 2
    ensures var c := (a + b) % 2; 0 <= c < 2 && (b + c) % 2 == a && (c + a) % 2 == b
  {
    if a == 0 { assert (a + b) % 2 == b; }
  }

  lemma XorStep(a0: int, a1: int, b0: int, b1: int, n: nat)
    requires n > 0 && 0 <= a0 < 2 && 0 <= b0 < 2
    ensures Xor(2 * a1 + a0, 2 * b1 + b0, n) == (a0 + b0) % 2 + 2 * Xor(a1, b1, n - 1)
  {
    assert (2 * a1 + a0) / 2 == a1 && (2 * b1 + b0) / 2 == b1;
  }

  lemma XorSwapStep(a0: int, a1: int, b0: int, b1: int, n: nat)
    requires n > 0 && 0 <= a0 < 2 && 0 <= b0 < 2
    requires var y := Xor(a1, b1, n - 1); 0 <= y < Pow2(n - 1) && Xor(b1, y, n - 1) == a1 && Xor(y, a1, n - 1) == b1
    ensures var a, b := 2 * a1 + a0, 2 * b1 + b0;
      var x := Xor(a, b, n); 0 <= x < Pow2(n) && Xor(b, x, n) == a && Xor(x, a, n) == b
  {
    hide Xor, Pow2;
    Doubled(n);
    Parity(a0, b0);
    var y, y0 := Xor(a1, b1, n - 1), (a0 + b0) % 2;
    XorStep(a0, a1, b0, b1, n);
    XorStep(b0, b1, y0, y, n);
    XorStep(y0, y, a0, a1, n);
  }

  /** Three assignments with ^= swap two values of n bits. */
  lemma {:induction false} XorSwap(a: int, b: int, n: nat)
    requires 0 <= a < Pow2(n) && 0 <= b < Pow2(n)
    ensures var x := Xor(a, b, n); 0 <= x < Pow2(n) && Xor(b, x, n) == a && Xor(x, a, n) == b
    decreases n
  {
    if n == 0 {
    } else {
      XorSwap(a / 2, b / 2, n - 1);
      XorSwapStep(a % 2, a / 2, b % 2, b / 2, n);
    }
  }
}
