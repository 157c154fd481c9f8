/**
 The digitwise operators of Bits agree with 32-bit machine arithmetic, and so the
 mixing function of XXTEA, written on Python's unbounded integers and masked
 once, is the one on machine words. Machine operations get names of their own, so
 that proofs about numbers do not look inside them.
 */
module BitVectors {
  import opened ModArith
  import opened Bits
  import opened Xxtea

  // ---------------------------------------------------------------------
  // Machine operations
  // ---------------------------------------------------------------------

  function Even(u: bv32): bv32 {
    u + u
  }

  function Odd(u: bv32): bv32 {
    u + u + 1
  }

  function Inc(u: bv32): bv32 {
    u + 1
  }

  function Plus(u: bv32, v: bv32): bv32 {
    u + v
  }

  function Both(u: bv32, v: bv32): bv32 {
    u ^ v
  }

  function Half(u: bv32): bv32 {
    u >> 1
  }

  function Mask(u: bv32, v: bv32): bv32 {
    u & v
  }

  lemma Doubled(u: bv32)
    ensures u << 1 == u + u && (u << 1) | 1 == u + u + 1
  {
  }

  lemma InSums(u: bv32)
    ensures Even(u) == u + u && Odd(u) == u + u + 1 && Inc(u) == u + 1
  {
  }

  lemma PlusIs(u: bv32, v: bv32)
    ensures Plus(u, v) == u + v
  {
  }

  lemma EvenSums(u: bv32, v: bv32)
    ensures Plus(u + u, v + v) == Even(u + v)
  {
  }

  lemma OddEvenSums(u: bv32, v: bv32)
    ensures Plus(u + u + 1, v + v) == Odd(u + v)
  {
  }

  lemma EvenOddSums(u: bv32, v: bv32)
    ensures Plus(u + u, v + v + 1) == Odd(u + v)
  {
  }

  lemma OddSums(u: bv32, v: bv32)
    ensures Plus(u + u + 1, v + v + 1) == Even(u + v + 1)
  {
  }

  lemma EvenPlusEven(u: bv32, v: bv32)
    ensures Plus(Even(u), Even(v)) == Even(Plus(u, v))
  {
    hide Plus, Even, Odd, Inc;
    InSums(u);
    InSums(v);
    PlusIs(u, v);
    EvenSums(u, v);
  }

  lemma OddPlusEven(u: bv32, v: bv32)
    ensures Plus(Odd(u), Even(v)) == Odd(Plus(u, v))
  {
    hide Plus, Even, Odd, Inc;
    InSums(u);
    InSums(v);
    PlusIs(u, v);
    OddEvenSums(u, v);
  }

  lemma EvenPlusOdd(u: bv32, v: bv32)
    ensures Plus(Even(u), Odd(v)) == Odd(Plus(u, v))
  {
    hide Plus, Even, Odd, Inc;
    InSums(u);
    InSums(v);
    PlusIs(u, v);
    EvenOddSums(u, v);
  }

  lemma OddPlusOdd(u: bv32, v: bv32)
    ensures Plus(Odd(u), Odd(v)) == Even(Inc(Plus(u, v)))
  {
    hide Plus, Even, Odd, Inc;
    InSums(u);
    InSums(v);
    InSums(u + v);
    PlusIs(u, v);
    OddSums(u, v);
  }

  lemma PlusDigits(u: bv32, v: bv32)
    ensures Plus(Even(u), Even(v)) == Even(Plus(u, v))
    ensures Plus(Odd(u), Even(v)) == Odd(Plus(u, v)) && Plus(Even(u), Odd(v)) == Odd(Plus(u, v))
    ensures Plus(Odd(u), Odd(v)) == Even(Inc(Plus(u, v)))
  {
    hide Plus, Even, Odd, Inc;
    EvenPlusEven(u, v);
    OddPlusEven(u, v);
    EvenPlusOdd(u, v);
    OddPlusOdd(u, v);
  }

  lemma IncOfSums(u: bv32)
    ensures Inc(u + u) == u + u + 1 && Inc(u + u + 1) == (u + 1) + (u + 1)
  {
  }

  lemma IncDigits(u: bv32)
    ensures Inc(Even(u)) == Odd(u) && Inc(Odd(u)) == Even(Inc(u))
  {
    hide Even, Odd, Inc;
    InSums(u);
    InSums(u + 1);
    IncOfSums(u);
  }

  function Append0(u: bv32): bv32 {
    u << 1
  }

  function Append1(u: bv32): bv32 {
    (u << 1) | 1
  }

  lemma Appended(u: bv32)
    ensures Even(u) == Append0(u) && Odd(u) == Append1(u)
  {
    Doubled(u);
  }

  lemma InShifts(u: bv32)
    ensures Even(u) == u << 1 && Odd(u) == (u << 1) | 1
  {
    Doubled(u);
  }

  lemma BothIs(u: bv32, v: bv32)
    ensures Both(u, v) == u ^ v
  {
  }

  lemma EvenBothEvenShifts(u: bv32, v: bv32)
    ensures Both(u << 1, v << 1) == Append0(u ^ v)
  {
  }

  lemma EvenBothEven(u: bv32, v: bv32)
    ensures Both(Even(u), Even(v)) == Even(Both(u, v))
  {
    hide Both, Even, Odd, Append0, Append1;
    InShifts(u);
    InShifts(v);
    Appended(u ^ v);
    BothIs(u, v);
    EvenBothEvenShifts(u, v);
  }

  lemma OddBothEvenShifts(u: bv32, v: bv32)
    ensures Both((u << 1) | 1, v << 1) == Append1(u ^ v)
  {
  }

  lemma OddBothEven(u: bv32, v: bv32)
    ensures Both(Odd(u), Even(v)) == Odd(Both(u, v))
  {
    hide Both, Even, Odd, Append0, Append1;
    InShifts(u);
    InShifts(v);
    Appended(u ^ v);
    BothIs(u, v);
    OddBothEvenShifts(u, v);
  }

  lemma EvenBothOddShifts(u: bv32, v: bv32)
    ensures Both(u << 1, (v << 1) | 1) == Append1(u ^ v)
  {
  }

  lemma EvenBothOdd(u: bv32, v: bv32)
    ensures Both(Even(u), Odd(v)) == Odd(Both(u, v))
  {
    hide Both, Even, Odd, Append0, Append1;
    InShifts(u);
    InShifts(v);
    Appended(u ^ v);
    BothIs(u, v);
    EvenBothOddShifts(u, v);
  }

  lemma OddBothOddShifts(u: bv32, v: bv32)
    ensures Both((u << 1) | 1, (v << 1) | 1) == Append0(u ^ v)
  {
  }

  lemma OddBothOdd(u: bv32, v: bv32)
    ensures Both(Odd(u), Odd(v)) == Even(Both(u, v))
  {
    hide Both, Even, Odd, Append0, Append1;
    InShifts(u);
    InShifts(v);
    Appended(u ^ v);
    BothIs(u, v);
    OddBothOddShifts(u, v);
  }

  lemma BothDigits(u: bv32, v: bv32)
    ensures Both(Even(u), Even(v)) == Even(Both(u, v)) && Both(Odd(u), Odd(v)) == Even(Both(u, v))
    ensures Both(Odd(u), Even(v)) == Odd(Both(u, v)) && Both(Even(u), Odd(v)) == Odd(Both(u, v))
  {
    hide Both, Even, Odd;
    EvenBothEven(u, v);
    OddBothEven(u, v);
    EvenBothOdd(u, v);
    OddBothOdd(u, v);
  }

  lemma Zeros()
    ensures Even(0) == 0 && Odd(0) == 1 && Inc(0) == 1 && Plus(0, 0) == 0 && Both(0, 0) == 0
  {
  }

  // ---------------------------------------------------------------------
  // Numbers as bit-vectors
  // ---------------------------------------------------------------------

  /** The low 32 binary digits of n. */
  function Bv(n: nat): bv32 {
    if n == 0 then 0 else if n % 2 == 0 then Even(Bv(n / 2)) else Odd(Bv(n / 2))
  }

  lemma BvUnfold(n: nat)
    ensures Bv(n) == if n % 2 == 0 then Even(Bv(n / 2)) else Odd(Bv(n / 2))
  {
    Zeros();
    hide Even, Odd;
  }

  lemma XorHalf(a: nat, b: nat)
    ensures Xor(a, b) / 2 == Xor(a / 2, b / 2)
    ensures Xor(a, b) % 2 == 1 <==> a % 2 != b % 2
  {
  }

  lemma {:induction false} BvXor(a: nat, b: nat)
    ensures Bv(Xor(a, b)) == Both(Bv(a), Bv(b))
    decreases a + b
  {
    hide Even, Odd, Both;
    if a == 0 && b == 0 {
      Zeros();
    } else {
      hide Bv, Xor;
      BvXor(a / 2, b / 2);
      XorHalf(a, b);
      BvUnfold(Xor(a, b));
      BvUnfold(a);
      BvUnfold(b);
      BothDigits(Bv(a / 2), Bv(b / 2));
    }
  }

  lemma {:induction false} BvSuccessor(n: nat)
    ensures Bv(n + 1) == Inc(Bv(n))
  {
    hide Bv, Even, Odd, Inc;
    var h := n / 2;
    BvUnfold(n);
    BvUnfold(n + 1);
    IncDigits(Bv(h));
    if n % 2 == 1 {
      assert (n + 1) / 2 == h + 1;
      BvSuccessor(h);
    } else {
      assert (n + 1) / 2 == h;
    }
  }

  lemma {:induction false} BvSum(a: nat, b: nat)
    ensures Bv(a + b) == Plus(Bv(a), Bv(b))
    decreases a + b
  {
    hide Even, Odd, Plus, Inc;
    if a == 0 && b == 0 {
      Zeros();
    } else {
      hide Bv;
      var h, l := a / 2, b / 2;
      BvSum(h, l);
      BvUnfold(a);
      BvUnfold(b);
      BvUnfold(a + b);
      PlusDigits(Bv(h), Bv(l));
      if a % 2 == 1 && b % 2 == 1 {
        assert (a + b) / 2 == h + l + 1;
        BvSuccessor(h + l);
      } else {
        assert (a + b) / 2 == h + l;
      }
    }
  }

  lemma BvDouble(n: nat)
    ensures Bv(2 * n) == Even(Bv(n))
  {
    hide Bv, Even, Odd;
    BvUnfold(2 * n);
    assert (2 * n) / 2 == n && (2 * n) % 2 == 0;
  }

  function Times4(u: bv32): bv32 {
    u << 2
  }

  function Times16(u: bv32): bv32 {
    u << 4
  }

  lemma EvenTwice(u: bv32)
    ensures Even(u << 1) == u << 2 && Even(u) == u << 1 && Times4(u) == u << 2
  {
    Doubled(u);
    Doubled(u << 1);
  }

  lemma Times4Twice(u: bv32)
    ensures Times4(u << 2) == u << 4 && Times4(u) == u << 2 && Times16(u) == u << 4
  {
  }

  lemma BvFour(n: nat)
    ensures Bv(4 * n) == Times4(Bv(n))
  {
    hide Bv, Even, Times4;
    BvDouble(n);
    BvDouble(2 * n);
    assert 2 * (2 * n) == 4 * n;
    EvenTwice(Bv(n));
  }

  lemma BvSixteen(n: nat)
    ensures Bv(16 * n) == Times16(Bv(n))
  {
    hide Bv, Times4, Times16;
    BvFour(n);
    BvFour(4 * n);
    assert 4 * (4 * n) == 16 * n;
    Times4Twice(Bv(n));
  }

  function Times256(u: bv32): bv32 {
    u << 8
  }

  function Times65536(u: bv32): bv32 {
    u << 16
  }

  lemma Times16Twice(u: bv32)
    ensures Times16(u << 4) == u << 8 && Times16(u) == u << 4 && Times256(u) == u << 8
  {
  }

  lemma Times256Twice(u: bv32)
    ensures Times256(u << 8) == u << 16 && Times256(u) == u << 8 && Times65536(u) == u << 16
  {
  }

  lemma Times65536Twice(u: bv32)
    ensures Times65536(u << 16) == 0 && Times65536(u) == u << 16
  {
  }

  lemma BvMultiple(q: nat)
    ensures Bv(0x1_0000_0000 * q) == 0
  {
    hide Bv, Times16, Times256, Times65536;
    Bv65536(q);
    Bv65536(0x1_0000 * q);
    Times65536Twice(Bv(q));
  }

  lemma Bv256(n: nat)
    ensures Bv(0x100 * n) == Times256(Bv(n))
  {
    hide Bv, Times16, Times256;
    BvSixteen(n);
    BvSixteen(16 * n);
    Times16Twice(Bv(n));
  }

  lemma Bv65536(n: nat)
    ensures Bv(0x1_0000 * n) == Times65536(Bv(n))
  {
    hide Bv, Times256, Times65536;
    Bv256(n);
    Bv256(0x100 * n);
    Times256Twice(Bv(n));
  }

  lemma PlusZero(u: bv32)
    ensures Plus(0, u) == u
  {
  }

  /** Masking to 32 bits is what a machine word does by itself. */
  lemma BvMasked(n: nat)
    ensures Bv(n % WORD) == Bv(n)
  {
    hide Bv, Plus;
    var q, r := n / WORD, n % WORD;
    assert n == 0x1_0000_0000 * q + r;
    BvSum(0x1_0000_0000 * q, r);
    BvMultiple(q);
    PlusZero(Bv(r));
  }

  // ---------------------------------------------------------------------
  // Shifting right
  // ---------------------------------------------------------------------

  /** Zeros in the low k places, ones above. */
  function High(k: nat): bv32 {
    if k == 0 then 0xFFFF_FFFF else Even(High(k - 1))
  }

  lemma MaskEvenShifts(u: bv32, h: bv32)
    ensures Mask(u << 1, h << 1) == Append0(u & h)
  {
  }

  lemma MaskOddShifts(u: bv32, h: bv32)
    ensures Mask((u << 1) | 1, h << 1) == Append0(u & h)
  {
  }

  lemma MaskIs(u: bv32, v: bv32)
    ensures Mask(u, v) == u & v
  {
  }

  lemma MaskDigits(u: bv32, h: bv32)
    ensures Mask(Even(u), Even(h)) == Even(Mask(u, h)) && Mask(Odd(u), Even(h)) == Even(Mask(u, h))
  {
    hide Mask, Even, Odd, Append0, Append1;
    InShifts(u);
    InShifts(h);
    MaskIs(u, h);
    Appended(u & h);
    MaskEvenShifts(u, h);
    MaskOddShifts(u, h);
  }

  lemma MaskZero(h: bv32)
    ensures Mask(0, h) == 0 && Even(0) == 0
  {
  }

  lemma {:induction false} HighBits(n: nat, k: nat)
    requires n < Pow(2, k)
    ensures Mask(Bv(n), High(k)) == 0
    decreases k
  {
    hide Even, Odd, Mask;
    MaskZero(High(k));
    if k > 0 {
      HighBits(n / 2, k - 1);
      hide Bv;
      BvUnfold(n);
      MaskDigits(Bv(n / 2), High(k - 1));
    }
  }

  lemma HighAt31()
    ensures High(31) == 0x8000_0000 && Pow(2, 31) == 0x8000_0000
  {
    assert High(8) == 0xFFFF_FF00 && Pow(2, 8) == 0x100;
    assert High(16) == 0xFFFF_0000 && Pow(2, 16) == 0x1_0000;
    assert High(24) == 0xFF00_0000 && Pow(2, 24) == 0x100_0000;
  }

  lemma ShiftedBack(u: bv32)
    requires Mask(u, 0x8000_0000) == 0
    ensures Half(Even(u)) == u && Half(Odd(u)) == u
  {
    Doubled(u);
  }

  lemma BvHalf(n: nat)
    requires n < WORD
    ensures Bv(n / 2) == Half(Bv(n))
  {
    hide Bv, Even, Odd, Half, Mask;
    HighAt31();
    HighBits(n / 2, 31);
    BvUnfold(n);
    ShiftedBack(Bv(n / 2));
  }

  function Quarter(u: bv32): bv32 {
    u >> 2
  }

  function Eighth(u: bv32): bv32 {
    u >> 3
  }

  function Shift5(u: bv32): bv32 {
    u >> 5
  }

  lemma HalfTwice(u: bv32)
    ensures Half(u >> 1) == u >> 2 && Half(u) == u >> 1 && Quarter(u) == u >> 2
  {
  }

  lemma HalfMore(u: bv32)
    ensures Half(u >> 2) == u >> 3 && Quarter(u) == u >> 2 && Eighth(u) == u >> 3
  {
  }

  lemma QuarterMore(u: bv32)
    ensures Quarter(u >> 3) == u >> 5 && Eighth(u) == u >> 3 && Shift5(u) == u >> 5
  {
  }

  lemma BvQuarter(n: nat)
    requires n < WORD
    ensures Bv(n / 4) == Quarter(Bv(n))
  {
    hide Bv, Half, Quarter;
    assert n / 4 == n / 2 / 2;
    BvHalf(n);
    BvHalf(n / 2);
    HalfTwice(Bv(n));
  }

  lemma BvRight(n: nat)
    requires n < WORD
    ensures Bv(n / 8) == Eighth(Bv(n)) && Bv(n / 32) == Shift5(Bv(n))
  {
    hide Bv, Half, Quarter, Eighth, Shift5;
    assert n / 8 == n / 4 / 2 && n / 32 == n / 8 / 4;
    BvQuarter(n);
    BvHalf(n / 4);
    HalfMore(Bv(n));
    BvQuarter(n / 8);
    QuarterMore(Bv(n));
  }

  // ---------------------------------------------------------------------
  // Masking, and telling numbers apart
  // ---------------------------------------------------------------------

  lemma LowZero(u: bv32)
    ensures Mask(Even(Even(u)), 3) == 0
  {
    hide Even, Odd, Mask;
    InShifts(u);
    InShifts(u << 1);
    LowZeroBits(u);
  }

  lemma LowZeroBits(u: bv32)
    ensures Mask(u << 1 << 1, 3) == 0
  {
  }

  lemma LowTwo(u: bv32)
    ensures Mask(Even(Odd(u)), 3) == 2
  {
    hide Even, Odd, Mask;
    InShifts(u);
    InShifts((u << 1) | 1);
    LowTwoBits(u);
  }

  lemma LowTwoBits(u: bv32)
    ensures Mask(((u << 1) | 1) << 1, 3) == 2
  {
  }

  lemma LowOne(u: bv32)
    ensures Mask(Odd(Even(u)), 3) == 1
  {
    hide Even, Odd, Mask;
    InShifts(u);
    InShifts(u << 1);
    LowOneBits(u);
  }

  lemma LowOneBits(u: bv32)
    ensures Mask((u << 1 << 1) | 1, 3) == 1
  {
  }

  lemma LowThree(u: bv32)
    ensures Mask(Odd(Odd(u)), 3) == 3
  {
    hide Even, Odd, Mask;
    InShifts(u);
    InShifts((u << 1) | 1);
    LowThreeBits(u);
  }

  lemma LowThreeBits(u: bv32)
    ensures Mask((((u << 1) | 1) << 1) | 1, 3) == 3
  {
  }

  lemma SmallBv()
    ensures Bv(0) == 0 && Bv(1) == 1 && Bv(2) == 2 && Bv(3) == 3
  {
  }

  /** Two digits over a higher part. */
  function Digits(u: bv32, b: int, a: int): bv32 {
    var v := if b == 0 then Even(u) else Odd(u);
    if a == 0 then Even(v) else Odd(v)
  }

  lemma LowDigits(u: bv32, b: int, a: int)
    requires 0 <= b < 2 && 0 <= a < 2
    ensures Mask(Digits(u, b, a), 3) == Bv(2 * b + a)
  {
    SmallBv();
    hide Bv, Even, Odd, Mask;
    if b == 0 && a == 0 {
      LowZero(u);
    } else if b == 0 {
      LowOne(u);
    } else if a == 0 {
      LowTwo(u);
    } else {
      LowThree(u);
    }
  }

  lemma BvModFour(n: nat)
    ensures Bv(n % 4) == Mask(Bv(n), 3)
  {
    var h, a, b := n / 4, n % 2, (n / 2) % 2;
    assert n / 2 / 2 == h && n % 4 == 2 * b + a;
    BvDigits(n, h, b, a);
    hide Bv, Mask, Digits;
    LowDigits(Bv(h), b, a);
  }

  lemma BvDigits(n: nat, h: nat, b: int, a: int)
    requires n % 2 == a && (n / 2) % 2 == b && n / 2 / 2 == h
    ensures Bv(n) == Digits(Bv(h), b, a)
  {
    hide Bv, Even, Odd;
    BvUnfold(n);
    BvUnfold(n / 2);
  }

  lemma MaskOne(u: bv32)
    ensures Mask(Even(u), 1) == 0 && Mask(Odd(u), 1) == 1
  {
    hide Even, Odd, Mask;
    InTwo(u);
    InSums(u);
  }

  lemma InTwo(u: bv32)
    ensures Mask(u + u, 1) == 0 && Mask(u + u + 1, 1) == 1
  {
  }

  /** Words with the same bit-vector are the same. */
  lemma {:induction false} BvInjective(a: nat, b: nat)
    requires a < WORD && b < WORD && Bv(a) == Bv(b)
    ensures a == b
    decreases a + b
  {
    if a != 0 || b != 0 {
      hide Bv, Even, Odd, Mask, Half;
      BvUnfold(a);
      BvUnfold(b);
      MaskOne(Bv(a / 2));
      MaskOne(Bv(b / 2));
      BvHalf(a);
      BvHalf(b);
      BvInjective(a / 2, b / 2);
    }
  }

  // ---------------------------------------------------------------------
  // The mixing function
  // ---------------------------------------------------------------------

  /** The expression of the program on 32-bit machine words. */
  function MxWord(sum: bv32, y: bv32, z: bv32, key: bv32): bv32 {
    (((z >> 5) ^ (y << 2)) + ((y >> 3) ^ (z << 4))) ^ ((sum ^ y) + (key ^ z))
  }

  function Mix1(y: bv32, z: bv32): bv32 {
    (z >> 5) ^ (y << 2)
  }

  function Mix2(y: bv32, z: bv32): bv32 {
    (y >> 3) ^ (z << 4)
  }

  function Mix12(y: bv32, z: bv32): bv32 {
    ((z >> 5) ^ (y << 2)) + ((y >> 3) ^ (z << 4))
  }

  function Mix34(sum: bv32, y: bv32, z: bv32, key: bv32): bv32 {
    (sum ^ y) + (key ^ z)
  }

  lemma Mix1Is(y: bv32, z: bv32)
    ensures Shift5(z) == z >> 5 && Times4(y) == y << 2 && Both(z >> 5, y << 2) == Mix1(y, z)
  {
  }

  lemma Mix2Is(y: bv32, z: bv32)
    ensures Eighth(y) == y >> 3 && Times16(z) == z << 4 && Both(y >> 3, z << 4) == Mix2(y, z)
  {
  }

  lemma Mix12Is(y: bv32, z: bv32)
    ensures Mix1(y, z) == (z >> 5) ^ (y << 2) && Mix2(y, z) == (y >> 3) ^ (z << 4)
    ensures Plus((z >> 5) ^ (y << 2), (y >> 3) ^ (z << 4)) == Mix12(y, z)
  {
  }

  lemma Mix34Is(sum: bv32, y: bv32, z: bv32, key: bv32)
    ensures Plus(sum ^ y, key ^ z) == Mix34(sum, y, z, key)
  {
  }

  lemma MixAllIs(sum: bv32, y: bv32, z: bv32, key: bv32)
    ensures Both(((z >> 5) ^ (y << 2)) + ((y >> 3) ^ (z << 4)), (sum ^ y) + (key ^ z)) == MxWord(sum, y, z, key)
  {
  }

  lemma Mix12Direct(y: bv32, z: bv32)
    ensures Mix12(y, z) == ((z >> 5) ^ (y << 2)) + ((y >> 3) ^ (z << 4))
  {
  }

  lemma Mix34Direct(sum: bv32, y: bv32, z: bv32, key: bv32)
    ensures Mix34(sum, y, z, key) == (sum ^ y) + (key ^ z)
  {
  }

  lemma FirstMix(y: bv32, z: bv32)
    ensures Plus(Both(Shift5(z), Times4(y)), Both(Eighth(y), Times16(z))) == Mix12(y, z)
  {
    hide Both, Plus, Shift5, Times4, Eighth, Times16, Mix1, Mix2, Mix12;
    Mix1Is(y, z);
    Mix2Is(y, z);
    Mix12Is(y, z);
  }

  lemma SecondMix(sum: bv32, y: bv32, z: bv32, key: bv32)
    ensures Plus(Both(sum, y), Both(key, z)) == Mix34(sum, y, z, key)
  {
    hide Both, Plus, Mix34;
    BothIs(sum, y);
    BothIs(key, z);
    Mix34Is(sum, y, z, key);
  }

  lemma LastMix(sum: bv32, y: bv32, z: bv32, key: bv32)
    ensures Both(Mix12(y, z), Mix34(sum, y, z, key)) == MxWord(sum, y, z, key)
  {
    hide Both, Mix12, Mix34, MxWord;
    Mix12Direct(y, z);
    Mix34Direct(sum, y, z, key);
    MixAllIs(sum, y, z, key);
  }

  lemma MxWordParts(sum: bv32, y: bv32, z: bv32, key: bv32)
    ensures MxWord(sum, y, z, key)
            == Both(Plus(Both(Shift5(z), Times4(y)), Both(Eighth(y), Times16(z))), Plus(Both(sum, y), Both(key, z)))
  {
    hide Both, Plus, Shift5, Times4, Eighth, Times16, MxWord, Mix12, Mix34;
    FirstMix(y, z);
    SecondMix(sum, y, z, key);
    LastMix(sum, y, z, key);
  }

  /** The key word that a round mixes in at place p. */
  lemma KeyIndex(sum: word, p: nat, i: nat)
    requires i < 4 && Bv(i) == Both(Mask(Bv(p), 3), Mask(Quarter(Bv(sum)), 3))
    ensures Xor(p % 4, RoundSelector(sum)) == i
  {
    hide Bv, Both, Mask, Quarter, Xor;
    BvModFour(p);
    BvQuarter(sum);
    BvModFour(sum / 4);
    BvXor(p % 4, RoundSelector(sum));
    XorIndex(p % 4, RoundSelector(sum));
    BvInjective(Xor(p % 4, RoundSelector(sum)), i);
  }

  /** The mixture with the key word already chosen. */
  function Mixed(sum: word, y: word, z: word, key: word): word {
    Xor(Shifted(y, z), Keyed(sum, y, z, key)) % WORD
  }

  function Shifted(y: word, z: word): nat {
    Xor(z / 32, y * 4) + Xor(y / 8, z * 16)
  }

  function Keyed(sum: word, y: word, z: word, key: word): nat {
    Xor(sum, y) + Xor(key, z)
  }

  /** Python's unbounded form of the mixing function, masked once, is the machine's. */
  lemma MxIsMachine(sum: word, y: word, z: word, p: nat, k: seq<word>, i: nat)
    requires |k| >= 4 && i < 4 && Bv(i) == Both(Mask(Bv(p), 3), Mask(Quarter(Bv(sum)), 3))
    ensures Bv(Mx(sum, y, z, p, RoundSelector(sum), k)) == MxWord(Bv(sum), Bv(y), Bv(z), Bv(k[i]))
  {
    hide Bv, MxWord, Xor, RoundSelector, Both, Mask, Quarter, Mx, Mixed;
    KeyIndex(sum, p, i);
    MxOpened(sum, y, z, p, RoundSelector(sum), k, i);
    MixOfNumbers(sum, y, z, k[i]);
  }

  lemma MxOpened(sum: word, y: word, z: word, p: nat, e: int, k: seq<word>, i: nat)
    requires |k| >= 4 && 0 <= e < 4 && i < 4 && Xor(p % 4, e) == i
    ensures Mx(sum, y, z, p, e, k) == Mixed(sum, y, z, k[i])
  {
    hide Xor;
  }

  lemma MixOfNumbers(sum: word, y: word, z: word, key: word)
    ensures Bv(Mixed(sum, y, z, key)) == MxWord(Bv(sum), Bv(y), Bv(z), Bv(key))
  {
    hide Bv, Both, Plus, Xor, Shift5, Times4, Eighth, Times16, MxWord, Shifted, Keyed;
    var t12, t34 := Shifted(y, z), Keyed(sum, y, z, key);
    ShiftedMix(y, z);
    KeyedMix(sum, y, z, key);
    BvXor(t12, t34);
    BvMasked(Xor(t12, t34));
    MxWordParts(Bv(sum), Bv(y), Bv(z), Bv(key));
  }

  lemma ShiftedMix(y: word, z: word)
    ensures Bv(Shifted(y, z))
            == Plus(Both(Shift5(Bv(z)), Times4(Bv(y))), Both(Eighth(Bv(y)), Times16(Bv(z))))
  {
    hide Bv, Both, Plus, Xor, Shift5, Times4, Eighth, Times16;
    BvRight(z);
    BvRight(y);
    BvFour(y);
    BvSixteen(z);
    BvXor(z / 32, y * 4);
    BvXor(y / 8, z * 16);
    BvSum(Xor(z / 32, y * 4), Xor(y / 8, z * 16));
  }

  lemma KeyedMix(sum: word, y: word, z: word, key: word)
    ensures Bv(Keyed(sum, y, z, key)) == Plus(Both(Bv(sum), Bv(y)), Both(Bv(key), Bv(z)))
  {
    hide Bv, Both, Plus, Xor;
    BvXor(sum, y);
    BvXor(key, z);
    BvSum(Xor(sum, y), Xor(key, z));
  }

  /** The place of the key word that a round mixes in at p: (p & 3) ^ e. */
  function KeyPlace(p: bv32, sum: bv32): bv32 {
    (p & 3) ^ ((sum >> 2) & 3)
  }

  lemma KeyPlaceIs(p: bv32, sum: bv32)
    ensures Both(Mask(p, 3), Mask(Quarter(sum), 3)) == KeyPlace(p, sum)
  {
    hide Both, Mask, Quarter;
    QuarterIs(sum);
    MaskIs(p, 3);
    MaskIs(sum >> 2, 3);
    BothIs(p & 3, (sum >> 2) & 3);
  }

  lemma QuarterIs(u: bv32)
    ensures Quarter(u) == u >> 2
  {
  }

  /** Python's unbounded mixing function, masked once, is the expression of MxWord on machine words, with the key word
      at KeyPlace. */
  lemma MxOnWords(sum: word, y: word, z: word, p: nat, k: seq<word>, i: nat)
    requires |k| >= 4 && i < 4 && Bv(i) == KeyPlace(Bv(p), Bv(sum))
    ensures Bv(Mx(sum, y, z, p, (sum / 4) % 4, k)) == MxWord(Bv(sum), Bv(y), Bv(z), Bv(k[i]))
  {
    hide Bv, Both, Mask, Quarter, MxWord, Mx, KeyPlace;
    KeyPlaceIs(Bv(p), Bv(sum));
    MxIsMachine(sum, y, z, p, k, i);
  }

  /** There is such a place for every round. */
  lemma KeyPlaceExists(sum: word, p: nat) returns (i: nat)
    ensures i < 4 && Bv(i) == KeyPlace(Bv(p), Bv(sum))
  {
    hide Bv, Both, Mask, Quarter, KeyPlace, Xor;
    i := Xor(p % 4, (sum / 4) % 4);
    XorIndex(p % 4, (sum / 4) % 4);
    BvModFour(p);
    BvQuarter(sum);
    BvModFour(sum / 4);
    BvXor(p % 4, (sum / 4) % 4);
    KeyPlaceIs(Bv(p), Bv(sum));
  }

  lemma BvAdd32(a: word, b: word)
    ensures Bv(Add32(a, b)) == Plus(Bv(a), Bv(b))
  {
    hide Bv, Plus;
    BvSum(a, b);
    BvMasked(a + b);
  }
}
