/**
 The modulus 17 * 2^27 + 1 of polys.c is prime. The transform does not need it,
 but whether a product of two polynomials can lose its leading coefficient does.
 */
module ModulusPrime {
  import opened ModArith
  import opened Transform
  import opened Roots
  import opened Primes

  lemma CongDivisor(a: int, b: int, q: int)
    requires q > 0 && MOD % q == 0 && Cong(a, b, MOD)
    ensures Cong(a, b, q)
  {
    var k := CongElim(a, b, MOD);
    var c := MOD / q;
    assert MOD == c * q;
    MulAssoc(k, c, q);
    CongIntro(a, b, k * c, q);
  }

  lemma MinusOneIsNotOne(q: int)
    requires q > 2
    ensures !Cong(1, -1, q)
  {
    if Cong(1, -1, q) {
      CongAdd(1, -1, 1, 1, q);
      ModSmall(2, q);
      ModSmall(0, q);
    }
  }

  /** 3 is not a multiple of a divisor of MOD that exceeds 2. */
  lemma ThreeUnit(q: int)
    requires Prime(q) && q > 2 && MOD % q == 0
    ensures !Cong(3, 0, q)
  {
    hide Pow;
    if Cong(3, 0, q) {
      GeneratorHalfOrder();
      CongDivisor(Pow(3, (MOD - 1) / 2), -1, q);
      hide Cong;
      PowCong(3, 0, (MOD - 1) / 2, q);
      PowNext(0, (MOD - 1) / 2);
      CongTrans(0, Pow(3, (MOD - 1) / 2), -1, q);
      CongRefl(1, q);
      CongAdd(0, -1, 1, 1, q);
      SmallNotZero(1, q);
      CongSym(1, 0, q);
    }
  }

  /** If 2^r divides q - 1, the quotient is even: otherwise 3^(17 * 2^26) would be 1 and -1 modulo q. */
  lemma QuotientEven(q: int, r: nat, k: nat, v: nat, rest: nat)
    requires Prime(q) && q > 2 && MOD % q == 0
    requires q - 1 == k * v && (MOD - 1) / 2 == k * rest
    ensures v % 2 == 0
  {
    if v % 2 == 1 {
      var e := (MOD - 1) / 2;
      // 3^(e * v) is 1, as a power of 3^(q - 1)
      ThreeUnit(q);
      Fermat(3, q);
      PowPow(3, q - 1, rest);
      MulShuffle(k, v, rest);
      MulComm(rest, v);
      MulAssoc(k, rest, v);
      assert (q - 1) * rest == e * v;
      hide Pow, Cong;
      PowCong(Pow(3, q - 1), 1, rest, q);
      PowOne(rest);
      // and -1, as an odd power of 3^e
      GeneratorHalfOrder();
      CongDivisor(Pow(3, e), -1, q);
      PowPow(3, e, v);
      PowCong(Pow(3, e), -1, v, q);
      PowMinusOne(v);
      CongTrans(1, Pow(3, e * v), -1, q);
      MinusOneIsNotOne(q);
    }
  }

  /** 2^16 divides q - 1 for every odd prime divisor q of the modulus. */
  lemma {:induction false} HighPowerDivides(q: int, r: nat, k: nat) returns (v: nat)
    requires Prime(q) && q > 2 && MOD % q == 0 && r <= 16 && k == Pow(2, r)
    ensures q - 1 == k * v
    decreases r
  {
    if r == 0 {
      v := q - 1;
    } else {
      PowNext(2, r);
      var h := Pow(2, r - 1);
      var w := HighPowerDivides(q, r - 1, h);
      var rest := HalfCofactor(r - 1, h);
      hide Pow;
      QuotientEven(q, r - 1, h, w, rest);
      v := w / 2;
      assert w == 2 * v;
      MulAssoc(h, 2, v);
      MulComm(h, 2);
    }
  }

  lemma HalfCofactor(r: nat, k: nat) returns (rest: nat)
    requires r <= 26 && k == Pow(2, r)
    ensures (MOD - 1) / 2 == k * rest
  {
    hide Pow;
    TwentySix();
    PowAdd(2, r, 26 - r);
    var m := Pow(2, 26 - r);
    PowPositive(2, 26 - r);
    rest := 17 * m;
    MulShuffle(k, 17, m);
    MulComm(k, 17);
    MulAssoc(17, k, m);
  }

  lemma TwentySix()
    ensures Pow(2, 26) == 0x400_0000
  {
    hide Pow;
    PowAdd(2, 13, 13);
    PowAdd(2, 7, 6);
    PowAdd(2, 3, 3);
    PowAdd(2, 6, 1);
    PowUnfold(2, 3);
    PowUnfold(2, 2);
    PowUnfold(2, 1);
  }

  lemma NoSmallPrimeDivisor(q: int)
    requires Prime(q) && MOD % q == 0
    ensures q > 47768
  {
    if q > 2 {
      hide Pow;
      PowAdd(2, 8, 8);
      PowAdd(2, 4, 4);
      PowAdd(2, 2, 2);
      PowUnfold(2, 2);
      PowUnfold(2, 1);
      var v := HighPowerDivides(q, 16, Pow(2, 16));
    }
  }

  lemma ModPrime()
    ensures Prime(MOD)
  {
    forall d | 2 <= d < 47768
      ensures MOD % d != 0
    {
      if MOD % d == 0 {
        var q := PrimeDivisor(d, 2);
        DividesTrans(q, d, MOD);
        NoSmallPrimeDivisor(q);
      }
    }
    PrimeBelowSquare(MOD, 47768);
  }
}
