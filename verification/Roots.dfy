/**
 The roots of unity that polys.c derives from the generator 3. Two squaring
 chains, 3^(17*2^26) = -1 and 2^(17*2^27) = 1 modulo MOD, are all that is
 needed; the primality of MOD is not.
 */
module Roots {
  import opened ModArith
  import opened BitReversal
  import opened Transform

  const GENERATOR: int := 3
  const MAX_LEN: int := 0x800_0000

  /** The seventeenth power, where both chains start. */
  lemma PowSeventeen(b: int)
    ensures Pow(b, 17) == b * Pow(b * b * b * b, 4)
    ensures Pow(b, 4) == b * b * b * b
  {
    hide *;
    PowPow(b, 4, 4);
    PowUnfold(b, 17);
    PowUnfold(b, 4);
    PowUnfold(b, 3);
    PowUnfold(b, 2);
    PowUnfold(b, 1);
  }

  lemma PowUnfold(b: int, e: nat)
    requires e > 0
    ensures Pow(b, e) == b * Pow(b, e - 1)
    ensures Pow(b, 0) == 1
  {
  }

  lemma GeneratorHalfOrder()
    ensures Cong(Pow(GENERATOR, (MOD - 1) / 2), -1, MOD)
  {
    hide Pow;
    PowSeventeen(3);
    PowSeventeen(81);
    assert Pow(3, 17) == 129140163;
    PowSquareStep(3, 17, 129140163, 446737246, MOD);
    PowSquareStep(3, 34, 446737246, 1660948873, MOD);
    PowSquareStep(3, 68, 1660948873, 1998745818, MOD);
    PowSquareStep(3, 136, 1998745818, 1196108655, MOD);
    PowSquareStep(3, 272, 1196108655, 1057547068, MOD);
    PowSquareStep(3, 544, 1057547068, 1346120317, MOD);
    PowSquareStep(3, 1088, 1346120317, 1783582410, MOD);
    PowSquareStep(3, 2176, 1783582410, 231852688, MOD);
    PowSquareStep(3, 4352, 231852688, 637539285, MOD);
    PowSquareStep(3, 8704, 637539285, 451618310, MOD);
    PowSquareStep(3, 17408, 451618310, 2270548020, MOD);
    PowSquareStep(3, 34816, 2270548020, 1294996786, MOD);
    PowSquareStep(3, 69632, 1294996786, 1286750706, MOD);
    PowSquareStep(3, 139264, 1286750706, 977546242, MOD);
    PowSquareStep(3, 278528, 977546242, 799681555, MOD);
    PowSquareStep(3, 557056, 799681555, 1780348903, MOD);
    PowSquareStep(3, 1114112, 1780348903, 865646229, MOD);
    PowSquareStep(3, 2228224, 865646229, 1301610063, MOD);
    PowSquareStep(3, 4456448, 1301610063, 1639385633, MOD);
    PowSquareStep(3, 8912896, 1639385633, 123697435, MOD);
    PowSquareStep(3, 17825792, 123697435, 216937880, MOD);
    PowSquareStep(3, 35651584, 216937880, 2023592065, MOD);
    PowSquareStep(3, 71303168, 2023592065, 617790083, MOD);
    PowSquareStep(3, 142606336, 617790083, 483803410, MOD);
    PowSquareStep(3, 285212672, 483803410, 344250126, MOD);
    PowSquareStep(3, 570425344, 344250126, 2281701376, MOD);
  }

  lemma TwoOrder()
    ensures Cong(Pow(2, MOD - 1), 1, MOD)
  {
    hide Pow;
    PowSeventeen(2);
    PowSeventeen(16);
    assert Pow(2, 17) == 131072;
    PowSquareStep(2, 17, 131072, 1207959545, MOD);
    PowSquareStep(2, 34, 1207959545, 971104795, MOD);
    PowSquareStep(2, 68, 971104795, 545725448, MOD);
    PowSquareStep(2, 136, 545725448, 1136270791, MOD);
    PowSquareStep(2, 272, 1136270791, 1491627778, MOD);
    PowSquareStep(2, 544, 1491627778, 1906536945, MOD);
    PowSquareStep(2, 1088, 1906536945, 2124972347, MOD);
    PowSquareStep(2, 2176, 2124972347, 1823947735, MOD);
    PowSquareStep(2, 4352, 1823947735, 477564735, MOD);
    PowSquareStep(2, 8704, 477564735, 1199914812, MOD);
    PowSquareStep(2, 17408, 1199914812, 1582957167, MOD);
    PowSquareStep(2, 34816, 1582957167, 2023541585, MOD);
    PowSquareStep(2, 69632, 2023541585, 289031909, MOD);
    PowSquareStep(2, 139264, 289031909, 188177959, MOD);
    PowSquareStep(2, 278528, 188177959, 2155207363, MOD);
    PowSquareStep(2, 557056, 2155207363, 1205336555, MOD);
    PowSquareStep(2, 1114112, 1205336555, 549532831, MOD);
    PowSquareStep(2, 2228224, 549532831, 1789621547, MOD);
    PowSquareStep(2, 4456448, 1789621547, 896014655, MOD);
    PowSquareStep(2, 8912896, 896014655, 2125751184, MOD);
    PowSquareStep(2, 17825792, 2125751184, 1663911294, MOD);
    PowSquareStep(2, 35651584, 1663911294, 483803410, MOD);
    PowSquareStep(2, 71303168, 483803410, 344250126, MOD);
    PowSquareStep(2, 142606336, 344250126, 2281701376, MOD);
    PowSquareStep(2, 285212672, 2281701376, 1, MOD);
    PowSquareStep(2, 570425344, 1, 1, MOD);
    PowSquareStep(2, 1140850688, 1, 1, MOD);
  }

  // ---------------------------------------------------------------------
  // Roots of every transform length
  // ---------------------------------------------------------------------

  /** The value the C code calls wlen. */
  function Wlen(len: int, invert: bool): int
    requires len > 0
  {
    var w := Pow(GENERATOR, (MOD - 1) / len) % MOD;
    if invert then Pow(w, MOD - 2) % MOD else w
  }

  lemma {:induction false} PowerOfTwoDivides(m: int, len: int)
    requires PowerOfTwo(m) && PowerOfTwo(len) && len <= m
    ensures m % len == 0
    decreases m
  {
    if len > 1 {
      PowerOfTwoDivides(m / 2, len / 2);
      var h, q := len / 2, (m / 2) / (len / 2);
      assert m == q * len by {
        assert m / 2 == q * h;
        assert q * (2 * h) == 2 * (q * h);
      }
      DivModUnique(q, 0, len);
    }
  }

  lemma {:induction false} Doubling(k: nat)
    ensures PowerOfTwo(Pow(2, k))
  {
    if k > 0 {
      Doubling(k - 1);
    }
  }

  lemma MaxLenPowerOfTwo()
    ensures PowerOfTwo(MAX_LEN)
  {
    Doubling(27);
    PowPow(2, 3, 3);
    PowPow(2, 9, 3);
    PowUnfold(2, 3);
    PowUnfold(2, 2);
    PowUnfold(2, 1);
    PowUnfold(8, 3);
    PowUnfold(8, 2);
    PowUnfold(8, 1);
    PowUnfold(512, 3);
    PowUnfold(512, 2);
    PowUnfold(512, 1);
  }

  /** Every admissible length divides MOD - 1, so the exponent (MOD - 1) / len is exact. */
  lemma LengthDivides(len: int) returns (e: nat)
    requires PowerOfTwo(len) && len <= MAX_LEN
    ensures e == (MOD - 1) / len && e * len == MOD - 1
  {
    MaxLenPowerOfTwo();
    PowerOfTwoDivides(MAX_LEN, len);
    var q := MAX_LEN / len;
    assert MAX_LEN == q * len;
    e := 17 * q;
    assert e * len == 17 * (q * len);
    DivModUnique(e, 0, len);
  }

  lemma HalfLengthExponent(len: int, e: int, f: int)
    requires len >= 2 && len % 2 == 0
    requires e * len == MOD - 1 && f * (len / 2) == MOD - 1
    ensures f == 2 * e
  {
    var h := len / 2;
    assert e * (2 * h) == (2 * e) * h;
    DivModUnique(f, 0, h);
    DivModUnique(2 * e, 0, h);
  }

  /** Raising a residue and reducing commutes with congruence. */
  lemma PowRed(x: int, y: int, e: nat)
    requires Cong(x, y, MOD)
    ensures Cong(Pow(Red(x), e), Pow(y, e), MOD)
    ensures Cong(Red(Pow(x, e)), Pow(y, e), MOD)
  {
    hide Cong, Pow, Red;
    RedCong(x, x);
    CongTrans(Red(x), x, y, MOD);
    PowCong(Red(x), y, e, MOD);
    PowCong(x, y, e, MOD);
    RedCong(Pow(x, e), 0);
    CongTrans(Red(Pow(x, e)), Pow(x, e), Pow(y, e), MOD);
  }

  lemma SquareRed(x: int, y: int)
    requires Cong(x * x, y, MOD)
    ensures Cong(Red(x) * Red(x), Red(y), MOD)
  {
    hide Cong, Red;
    RedCong(x, x);
    RedCong(y, y);
    CongMul(Red(x), x, Red(x), x, MOD);
    CongTrans(Red(x) * Red(x), x * x, y, MOD);
    CongTrans(Red(x) * Red(x), y, Red(y), MOD);
  }

  /** Squaring the root of one length gives the root of half that length. */
  lemma WlenSquare(len: int, invert: bool)
    requires PowerOfTwo(len) && 2 <= len <= MAX_LEN
    ensures Cong(Wlen(len, invert) * Wlen(len, invert), Wlen(len / 2, invert), MOD)
  {
    hide Cong, Pow;
    var e := LengthDivides(len);
    var f := LengthDivides(len / 2);
    HalfLengthExponent(len, e, f);
    var x, y := Pow(GENERATOR, e), Pow(GENERATOR, f);
    PowAdd(GENERATOR, e, e);
    CongRefl(y, MOD);
    SquareRed(x, y);
    if invert {
      var u, v := Red(x), Red(y);
      PowProduct(u, u, MOD - 2);
      PowCong(u * u, v, MOD - 2, MOD);
      SquareRed(Pow(u, MOD - 2), Pow(v, MOD - 2));
    }
  }

  /** Half a turn is -1: the fact behind butterflies and orthogonality. */
  lemma WlenHalfTurn(len: int, invert: bool)
    requires PowerOfTwo(len) && 2 <= len <= MAX_LEN
    ensures Cong(Pow(Wlen(len, invert), len / 2), -1, MOD)
  {
    hide Cong, Pow;
    var h := len / 2;
    var e := LengthDivides(len);
    var x := Pow(GENERATOR, e);
    assert e * h == (MOD - 1) / 2 by {
      assert e * (2 * h) == 2 * (e * h);
    }
    PowPow(GENERATOR, e, h);
    GeneratorHalfOrder();
    CongRefl(x, MOD);
    PowRed(x, x, h);
    CongTrans(Pow(Red(x), h), Pow(x, h), -1, MOD);
    if invert {
      var w := Red(x);
      var u := Pow(w, MOD - 2);
      PowPow(w, MOD - 2, h);
      PowPow(w, h, MOD - 2);
      assert h * (MOD - 2) == (MOD - 2) * h;
      PowCong(Pow(w, h), -1, MOD - 2, MOD);
      PowMinusOne(MOD - 2);
      CongRefl(u, MOD);
      PowRed(u, u, h);
      CongTrans(Pow(Red(u), h), Pow(u, h), -1, MOD);
    }
  }

  lemma {:induction false} PowMinusOne(e: nat)
    ensures Pow(-1, e) == if e % 2 == 0 then 1 else -1
  {
    if e > 0 {
      PowMinusOne(e - 1);
    }
  }

  lemma WlenFullTurn(len: int, invert: bool)
    requires PowerOfTwo(len) && len <= MAX_LEN
    ensures Cong(Pow(Wlen(len, invert), len), 1, MOD)
  {
    hide Cong, Pow, Wlen;
    var w := Wlen(len, invert);
    if len == 1 {
      WlenOne(invert);
      PowCong(w, 1, 1, MOD);
      PowOne(1);
    } else {
      WlenHalfTurn(len, invert);
      PowAdd(w, len / 2, len / 2);
      CongMul(Pow(w, len / 2), -1, Pow(w, len / 2), -1, MOD);
    }
  }

  lemma WlenOne(invert: bool)
    ensures Cong(Wlen(1, invert), 1, MOD)
  {
    hide Cong, Pow, Wlen;
    assert PowerOfTwo(2);
    WlenHalfTurn(2, invert);
    WlenSquare(2, invert);
    var w := Wlen(2, invert);
    PowUnfold(w, 1);
    CongMul(w, -1, w, -1, MOD);
    CongTrans(Wlen(1, invert), w * w, 1, MOD);
  }

  /** w * w^(MOD-2) is one whenever w^(MOD-1) is. */
  lemma InverseByPower(w: int)
    requires Cong(Pow(w, MOD - 1), 1, MOD)
    ensures Cong(w * Red(Pow(w, MOD - 2)), 1, MOD)
  {
    hide Cong, Pow, Red;
    var u := Pow(w, MOD - 2);
    PowUnfold(w, MOD - 1);
    RedCong(u, u);
    CongMulLeft(w, Red(u), u, MOD);
    CongTrans(w * Red(u), w * u, 1, MOD);
  }

  /** The forward and inverse roots of one length cancel. */
  lemma WlenInverse(len: int)
    requires PowerOfTwo(len) && len <= MAX_LEN
    ensures Cong(Wlen(len, false) * Wlen(len, true), 1, MOD)
  {
    hide Cong, Pow;
    var w := Wlen(len, false);
    var e := LengthDivides(len);
    WlenFullTurn(len, false);
    assert len * e == MOD - 1;
    PowPow(w, len, e);
    PowCong(Pow(w, len), 1, e, MOD);
    PowOne(e);
    InverseByPower(w);
  }

  /** n raised to MOD - 2 inverts every power of two n. */
  lemma LengthInverse(n: int)
    requires PowerOfTwo(n)
    ensures Cong(n * Red(Pow(n, MOD - 2)), 1, MOD)
  {
    PowerOfTwoOrder(n);
    InverseByPower(n);
  }

  lemma {:induction false} PowerOfTwoOrder(n: int)
    requires PowerOfTwo(n)
    ensures Cong(Pow(n, MOD - 1), 1, MOD)
    decreases n
  {
    hide Cong, Pow;
    if n == 1 {
      PowOne(MOD - 1);
      CongRefl(1, MOD);
    } else {
      PowerOfTwoOrder(n / 2);
      TwoOrder();
      PowProduct(2, n / 2, MOD - 1);
      CongMul(Pow(2, MOD - 1), 1, Pow(n / 2, MOD - 1), 1, MOD);
    }
  }
}
