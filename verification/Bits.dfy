/** Unsigned numbers as C computes with them: 64-bit words, the bitwise or and the left shift. */
module Bits {

  const TWO_TO_64: int := 0x1_0000_0000_0000_0000

  type uint64 = x: int | 0 <= x < TWO_TO_64

  /** Unsigned 64-bit wrap-around. */
  function Wrap(x: nat): (r: uint64) {
    x % 0x1_0000_0000_0000_0000
  }

  lemma WrapFacts(x: nat)
    ensures x < TWO_TO_64 ==> Wrap(x) == x
    ensures TWO_TO_64 <= x < 2 * TWO_TO_64 ==> Wrap(x) == x - TWO_TO_64
  {
  }

  /** Bit `i` of `n`. */
  predicate Bit(n: nat, i: nat) {
    if i == 0 then n % 2 == 1 else Bit(n / 2, i - 1)
  }

  /** `a | b`. */
  function Or(a: nat, b: nat): (r: nat)
    decreases a + b
  {
    if a == 0 && b == 0 then 0
    else (if a % 2 == 1 || b % 2 == 1 then 1 else 0) + 2 * Or(a / 2, b / 2)
  }

  lemma {:induction false} OrBit(a: nat, b: nat, i: nat)
    ensures Bit(Or(a, b), i) <==> Bit(a, i) || Bit(b, i)
  {
    if a == 0 && b == 0 {
      NoBits(i);
    } else {
      assert Or(a, b) / 2 == Or(a / 2, b / 2);
      if i > 0 { OrBit(a / 2, b / 2, i - 1); }
    }
  }

  lemma {:induction false} NoBits(i: nat)
    ensures !Bit(0, i)
  {
    if i == 0 {
    } else {
      NoBits(i - 1);
    }
  }

  /** `n << k`, without an end to the word. */
  function Shl(n: nat, k: nat): (r: nat) {
    if k == 0 then n else 2 * Shl(n, k - 1)
  }

  lemma ShlBy7(n: nat, k: nat)
    ensures Shl(n, k + 7) == 128 * Shl(n, k)
  {
    assert Shl(n, k + 7) == 2 * Shl(n, k + 6) == 4 * Shl(n, k + 5) == 8 * Shl(n, k + 4) == 16 * Shl(n, k + 3);
    assert Shl(n, k + 3) == 2 * Shl(n, k + 2) == 4 * Shl(n, k + 1) == 8 * Shl(n, k);
  }

  lemma ShlBy8(n: nat, k: nat)
    ensures Shl(n, k + 8) == 256 * Shl(n, k)
  {
    ShlBy7(n, k);
    assert Shl(n, k + 8) == 2 * Shl(n, k + 7);
  }

  lemma {:induction false} OrZero(a: nat)
    ensures Or(a, 0) == a
  {
    if a == 0 {
    } else {
      OrZero(a / 2);
    }
  }

  lemma {:induction false} OrCommutes(a: nat, b: nat)
    ensures Or(a, b) == Or(b, a)
    decreases a + b
  {
    if a + b == 0 {
    } else {
      OrCommutes(a / 2, b / 2);
    }
  }

  /** When one number has only bits from position `k` on, and the other only bits below, the
      or is the sum. */
  lemma {:induction false} OrDisjoint(n: nat, low: nat, k: nat)
    requires low < Shl(1, k)
    ensures Or(Shl(n, k), low) == Or(low, Shl(n, k)) == Shl(n, k) + low
  {
    OrCommutes(Shl(n, k), low);
    if k == 0 {
      OrZero(n);
    } else {
      OrDisjoint(n, low / 2, k - 1);
    }
  }
}
