/**
  Bit operations on natural numbers, defined bit by bit, so the facts below hold at every
  word width.  `Low(x, k)` is `x & (2^k - 1)`.
 */
module Bits {

  function Pow2(k: nat): (r: nat)
    ensures r > 0
  {
    if k == 0 then 1 else 2 * Pow2(k - 1)
  }

  function Low(x: nat, k: nat): (r: nat)
    ensures r < Pow2(k)
  {
    if k == 0 then 0 else x % 2 + 2 * Low(x / 2, k - 1)
  }

  function Xor(a: nat, b: nat): nat
    decreases a + b
  {
    if a == 0 && b == 0 then 0 else (if a % 2 == b % 2 then 0 else 1) + 2 * Xor(a / 2, b / 2)
  }

  lemma LowBits(x: nat, k: nat)
    requires k > 0
    ensures Low(x, k) % 2 == x % 2 && Low(x, k) / 2 == Low(x / 2, k - 1)
  {
  }

  lemma LowParts(x: nat, y: nat, k: nat)
    requires k > 0 && x % 2 == y % 2 && Low(x / 2, k - 1) == Low(y / 2, k - 1)
    ensures Low(x, k) == Low(y, k)
  {
  }

  lemma AddBits(x: nat, h: nat)
    ensures (x + 2 * h) % 2 == x % 2 && (x + 2 * h) / 2 == x / 2 + h
    ensures (x + 2 * h + 1) % 2 != x % 2
  {
  }

  lemma XorBits(a: nat, b: nat)
    ensures Xor(a, b) % 2 == (if a % 2 == b % 2 then 0 else 1) && Xor(a, b) / 2 == Xor(a / 2, b / 2)
  {
  }

  lemma {:induction false} XorCancel(a: nat, b: nat)
    ensures Xor(Xor(a, b), b) == a
    decreases a + b
  {
    if a != 0 || b != 0 { XorCancel(a / 2, b / 2); }
  }

  /** The low bits of an exclusive or depend on the low bits of the operands only. */
  lemma {:induction false} XorLow(a: nat, b: nat, k: nat)
    ensures Low(Xor(a, b), k) == Low(Xor(Low(a, k), b), k)
  {
    if k > 0 {
      var a' := Low(a, k);
      LowBits(a, k);
      XorBits(a, b);
      XorBits(a', b);
      XorLow(a / 2, b / 2, k - 1);
      LowParts(Xor(a, b), Xor(a', b), k);
    }
  }

  lemma {:induction false} LowSmall(x: nat, k: nat)
    requires x < Pow2(k)
    ensures Low(x, k) == x
  {
    if k > 0 { LowSmall(x / 2, k - 1); }
  }

  lemma {:induction false} LowLow(x: nat, j: nat, k: nat)
    requires j <= k
    ensures Low(Low(x, k), j) == Low(x, j)
  {
    if j > 0 {
      LowLow(x / 2, j - 1, k - 1);
      LowBits(x, k);
    }
  }

  /** Adding a power of two does not change the bits below it. */
  lemma {:induction false} LowAdd(x: nat, j: nat, k: nat)
    requires j <= k
    ensures Low(x + Pow2(k), j) == Low(x, j)
  {
    if j > 0 {
      AddBits(x, Pow2(k - 1));
      LowAdd(x / 2, j - 1, k - 1);
    }
  }

  /** Numbers less than 2^k apart differ in their low k bits. */
  lemma {:induction false} LowGap(x: nat, gap: nat, k: nat)
    requires 0 < gap < Pow2(k)
    ensures Low(x + gap, k) != Low(x, k)
  {
    var h := gap / 2;
    AddBits(x, h);
    LowBits(x, k);
    LowBits(x + gap, k);
    if gap == 2 * h { LowGap(x / 2, h, k - 1); }
  }

  /** One more bit adds nothing or 2^k. */
  lemma {:induction false} TopBit(x: nat, k: nat)
    ensures Low(x, k + 1) == Low(x, k) || Low(x, k + 1) == Low(x, k) + Pow2(k)
  {
    if k > 0 { TopBit(x / 2, k - 1); }
  }

  lemma {:induction false} Pow2Mono(j: nat, k: nat)
    requires j <= k
    ensures Pow2(j) <= Pow2(k)
  {
    if j < k { Pow2Mono(j, k - 1); }
  }
}
