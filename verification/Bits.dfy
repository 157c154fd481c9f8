/**
 Bitwise operators on Python's unbounded non-negative integers, digit by
 digit, with the facts the codecs need. Shifts are multiplication and division
 by powers of two, and masking with 2^k - 1 is reduction modulo 2^k.
 */
module Bits {
  import opened ModArith

  type byte = x: int | 0 <= x < 0x100
  type word = x: int | 0 <= x < 0x1_0000_0000

  const WORD: int := 0x1_0000_0000

  function Xor(a: nat, b: nat): nat
    decreases a + b
  {
    if a == 0 && b == 0 then 0 else 2 * Xor(a / 2, b / 2) + (if a % 2 != b % 2 then 1 else 0)
  }

  function Or(a: nat, b: nat): nat
    decreases a + b
  {
    if a == 0 && b == 0 then 0 else 2 * Or(a / 2, b / 2) + (if a % 2 == 1 || b % 2 == 1 then 1 else 0)
  }

  lemma {:induction false} XorTwice(a: nat, b: nat)
    ensures Xor(Xor(a, b), b) == a
    decreases a + b
  {
    if a != 0 || b != 0 {
      var x := Xor(a, b);
      assert x / 2 == Xor(a / 2, b / 2) && (x % 2 == 1 <==> a % 2 != b % 2);
      XorTwice(a / 2, b / 2);
      assert x != 0 || b != 0;
    }
  }

  lemma {:induction false} XorSymmetric(a: nat, b: nat)
    ensures Xor(a, b) == Xor(b, a)
    decreases a + b
  {
    if a != 0 || b != 0 {
      XorSymmetric(a / 2, b / 2);
    }
  }

  lemma {:induction false} XorZero(a: nat)
    ensures Xor(a, 0) == a
  {
    if a != 0 {
      XorZero(a / 2);
    }
  }

  lemma {:induction false} XorBound(a: nat, b: nat, k: nat)
    requires a < Pow(2, k) && b < Pow(2, k)
    ensures Xor(a, b) < Pow(2, k)
    decreases k
  {
    if k > 0 {
      XorBound(a / 2, b / 2, k - 1);
    }
  }

  /** XOR with a number of k bits leaves the higher bits alone. */
  lemma {:induction false} XorHigh(h: nat, l: nat, b: nat, k: nat)
    requires l < Pow(2, k) && b < Pow(2, k)
    ensures h * Pow(2, k) >= 0
    ensures Xor(h * Pow(2, k) + l, b) == h * Pow(2, k) + Xor(l, b)
    decreases k
  {
    if k == 0 {
      XorZero(h);
    } else {
      XorHigh(h, l / 2, b / 2, k - 1);
      var c := h * Pow(2, k - 1);
      MulShuffle(h, 2, Pow(2, k - 1));
      assert h * Pow(2, k) == 2 * c;
      assert (2 * c + l) / 2 == c + l / 2 && (2 * c + l) % 2 == l % 2;
    }
  }

  /** OR with bits above all of a's bits is addition. */
  lemma {:induction false} OrDisjoint(a: nat, b: nat, k: nat)
    requires a < Pow(2, k)
    ensures b * Pow(2, k) >= 0
    ensures Or(a, b * Pow(2, k)) == a + b * Pow(2, k)
    decreases k
  {
    if k == 0 {
      PowZero(2);
      OrZero(b);
    } else {
      PowNext(2, k);
      hide Or, Pow;
      OrDisjoint(a / 2, b, k - 1);
      MulShuffle(b, 2, Pow(2, k - 1));
      OrDouble(a, b * Pow(2, k - 1));
    }
  }

  lemma OrDouble(a: nat, b: nat)
    ensures Or(a, 2 * b) == 2 * Or(a / 2, b) + a % 2
    ensures Or(a, 2 * b + 1) == 2 * Or(a / 2, b) + 1
  {
    assert (2 * b) / 2 == b && (2 * b + 1) / 2 == b;
  }

  lemma {:induction false} OrSymmetric(a: nat, b: nat)
    ensures Or(a, b) == Or(b, a)
    decreases a + b
  {
    if a != 0 || b != 0 {
      OrSymmetric(a / 2, b / 2);
    }
  }

  lemma {:induction false} OrZero(b: nat)
    ensures Or(0, b) == b
  {
    if b != 0 {
      OrZero(b / 2);
    }
  }

  function XorByte(a: byte, b: byte): byte {
    BytePower();
    XorBound(a, b, 8);
    Xor(a, b)
  }

  lemma BytePower()
    ensures Pow(2, 8) == 0x100
  {
    hide Pow;
    PowPow(2, 2, 2);
    PowPow(2, 4, 2);
    PowTwo(2);
    PowTwo(4);
    PowTwo(16);
  }

  lemma PowTwo(b: int)
    ensures Pow(b, 2) == b * b
  {
    assert Pow(b, 1) == b * Pow(b, 0);
  }

  function Add32(a: word, b: word): word {
    (a + b) % WORD
  }

  function Sub32(a: word, b: word): word {
    (a - b) % WORD
  }

  lemma AddSub(a: word, b: word)
    ensures Sub32(Add32(a, b), b) == a
  {
  }

  lemma SubAdd(a: word, b: word)
    ensures Add32(Sub32(a, b), b) == a
  {
  }
}
