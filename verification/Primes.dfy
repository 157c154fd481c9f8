/**
 What Miller-Rabin and affine curve arithmetic need from prime numbers:
 inverses, cancellation, square roots of one, and Fermat's little theorem.
 */
module Primes {
  import opened ModArith

  ghost predicate Prime(p: int) {
    p >= 2 && forall d :: 2 <= d < p ==> p % d != 0
  }

  // ---------------------------------------------------------------------
  // Inverses and cancellation
  // ---------------------------------------------------------------------

  /** Every non-zero residue of a prime has an inverse, by descent through p mod a. */
  lemma {:induction false} InverseOfResidue(a: int, p: int) returns (x: int)
    requires Prime(p) && 0 < a < p
    ensures Cong(a * x, 1, p)
    decreases a
  {
    if a == 1 {
      x := 1;
    } else {
      var q, r := p / a, p % a;
      assert p == q * a + r;
      assert 0 < r < a;
      var y := InverseOfResidue(r, p);
      hide Cong;
      x := -(q * y);
      // a * x = r * y - p * y
      MulAssoc(a, q, y);
      MulComm(a, q);
      MulDistributes(q * a, r, y);
      CongIntro(a * x, r * y, -y, p);
      CongTrans(a * x, r * y, 1, p);
    }
  }

  lemma Inverse(v: int, p: int) returns (x: int)
    requires Prime(p) && !Cong(v, 0, p)
    ensures Cong(v * x, 1, p)
  {
    ModSmall(0, p);
    x := InverseOfResidue(v % p, p);
    hide Cong;
    CongSelfMod(v, p);
    CongMulLeft(x, v % p, v, p);
    CongTrans(v * x, (v % p) * x, 1, p);
  }

  /** A prime dividing a product divides a factor. */
  lemma Euclid(a: int, b: int, p: int)
    requires Prime(p) && Cong(a * b, 0, p)
    ensures Cong(a, 0, p) || Cong(b, 0, p)
  {
    if !Cong(a, 0, p) {
      var x := Inverse(a, p);
      hide Cong;
      CongMulLeft(x, a * b, 0, p);
      CongMulLeft(b, a * x, 1, p);
      MulShuffle(x, a, b);
      MulComm(x * b, a);
      MulAssoc(a, x, b);
      CongTrans(b, (a * x) * b, 0, p);
    }
  }

  lemma Cancel(c: int, a: int, b: int, p: int)
    requires Prime(p) && !Cong(c, 0, p)
    requires Cong(c * a, c * b, p)
    ensures Cong(a, b, p)
  {
    hide Cong;
    CongRefl(c * b, p);
    CongSub(c * a, c * b, c * b, c * b, p);
    MulDistributes(a - b, b, c);
    Euclid(c, a - b, p);
    CongRefl(b, p);
    CongAdd(a - b, 0, b, b, p);
  }

  /** Modulo a prime, one has no square roots but itself and minus one. */
  lemma RootsOfOne(y: int, p: int)
    requires Prime(p) && Cong(y * y, 1, p)
    ensures Cong(y, 1, p) || Cong(y, -1, p)
  {
    hide Cong;
    CongRefl(1, p);
    CongSub(y * y, 1, 1, 1, p);
    assert (y - 1) * (y + 1) == y * y - 1;
    Euclid(y - 1, y + 1, p);
    CongRefl(-1, p);
    if Cong(y - 1, 0, p) {
      CongAdd(y - 1, 0, 1, 1, p);
    } else {
      CongAdd(y + 1, 0, -1, -1, p);
    }
  }

  /** A residue strictly between zero and p is not zero modulo p. */
  lemma SmallNotZero(k: int, p: int)
    requires 0 < k < p
    ensures !Cong(k, 0, p)
  {
    ModSmall(k, p);
    ModSmall(0, p);
  }

  /** A number without divisors below m is prime if it is below m squared. */
  lemma PrimeBelowSquare(x: int, m: int)
    requires 2 <= x < m * m && m > 0
    requires forall d :: 2 <= d < m && d < x ==> x % d != 0
    ensures Prime(x)
  {
    forall d | 2 <= d < x ensures x % d != 0 {
      if d >= m && x % d == 0 {
        var _ := SmallCofactor(x, d, m);
      }
    }
  }

  /** The cofactor of a large divisor is small. */
  lemma SmallCofactor(x: int, d: int, m: int) returns (e: int)
    requires 2 <= x < m * m && m > 0 && m <= d < x && x % d == 0
    ensures 2 <= e < m && e < x && x % e == 0
  {
    e := x / d;
    assert x == e * d;
    if e >= m {
      MulMonotone(m, e, d);
      MulMonotone(m, d, m);
      MulComm(m, d);
    } else if e <= 1 {
      MulMonotone(e, 1, d);
    } else {
      MulComm(e, d);
      DivModUnique(d, 0, e);
      MulMonotone(2, d, e);
    }
  }

  /** Every number from 2 up has a prime divisor: the least one. */
  lemma {:induction false} PrimeDivisor(n: int, from: int) returns (q: int)
    requires 2 <= from <= n && forall d :: 2 <= d < from ==> n % d != 0
    ensures Prime(q) && n % q == 0 && from <= q <= n
    decreases n - from
  {
    if n % from != 0 {
      q := PrimeDivisor(n, from + 1);
    } else {
      q := from;
      forall d | 2 <= d < q ensures q % d != 0 {
        if q % d == 0 {
          DividesTrans(d, q, n);
        }
      }
    }
  }

  lemma DividesTrans(d: int, q: int, n: int)
    requires d > 0 && q > 0 && q % d == 0 && n % q == 0
    ensures n % d == 0
  {
    var a, b := n / q, q / d;
    assert n == a * q && q == b * d;
    MulAssoc(a, b, d);
    DivModUnique(a * b, 0, d);
  }

  // ---------------------------------------------------------------------
  // Binomial coefficients
  // ---------------------------------------------------------------------

  function Choose(n: nat, k: nat): nat {
    if k == 0 then 1 else if n == 0 then 0 else Choose(n - 1, k - 1) + Choose(n - 1, k)
  }

  lemma {:induction false} ChooseBeyond(n: nat, k: nat)
    requires k > n
    ensures Choose(n, k) == 0
  {
    if n > 0 {
      ChooseBeyond(n - 1, k - 1);
      ChooseBeyond(n - 1, k);
    }
  }

  lemma {:induction false} ChooseAll(n: nat)
    ensures Choose(n, n) == 1
  {
    if n > 0 {
      ChooseAll(n - 1);
      ChooseBeyond(n - 1, n);
    }
  }

  /** Absorption: k * C(n, k) = n * C(n-1, k-1). */
  lemma {:induction false} Absorb(n: nat, k: nat)
    requires n > 0 && k > 0
    ensures k * Choose(n, k) == n * Choose(n - 1, k - 1)
    decreases n
  {
    if n == 1 {
      if k > 1 {
        ChooseBeyond(1, k);
        ChooseBeyond(0, k - 1);
      }
    } else {
      var c, d := Choose(n - 1, k - 1), Choose(n - 1, k);
      Absorb(n - 1, k);
      MulDistributes(c, d, k);
      var e := Choose(n - 2, k - 1);
      if k > 1 {
        Absorb(n - 1, k - 1);
        var f := Choose(n - 2, k - 2);
        assert c == f + e;
        MulDistributes(f, e, n - 1);
        MulDistributes(k - 1, 1, c);
        MulDistributes(n - 1, 1, c);
      } else {
        assert c == 1 && e == 1;
      }
    }
  }

  ghost function BinomialTerm(n: nat, a: int): int -> int {
    k => if k < 0 then 0 else Choose(n, k) * Pow(a, k)
  }

  /** (a + 1)^n expanded. */
  lemma {:induction false} Binomial(n: nat, a: int)
    ensures Pow(a + 1, n) == Sum(BinomialTerm(n, a), n + 1)
  {
    if n == 0 {
      assert Sum(BinomialTerm(0, a), 1) == Sum(BinomialTerm(0, a), 0) + 1 * Pow(a, 0);
    } else {
      Binomial(n - 1, a);
      BinomialStep(n, a);
      PowNext(a + 1, n);
    }
  }

  lemma SumNext(f: int -> int, n: nat)
    ensures Sum(f, n + 1) == Sum(f, n) + f(n)
  {
  }

  lemma BinomialStep(n: nat, a: int)
    requires n > 0
    ensures Sum(BinomialTerm(n, a), n + 1) == (a + 1) * Sum(BinomialTerm(n - 1, a), n)
  {
    hide Sum, Pow;
    var f := BinomialTerm(n - 1, a);
    var up := (k: int) => if k <= 0 then 0 else a * f(k - 1);
    // the shifted summands
    SumNext(f, n);
    ChooseBeyond(n - 1, n);
    MulComm(0, Pow(a, n));
    forall k | 0 <= k < n + 1
      ensures BinomialTerm(n, a)(k) == f(k) + up(k)
    {
      BinomialTermStep(n, a, k);
    }
    SumAdd(f, up, BinomialTerm(n, a), n + 1);
    SumShift(f, up, a, n);
    MulDistributes(a, 1, Sum(f, n));
  }

  lemma BinomialTermStep(n: nat, a: int, k: nat)
    requires n > 0
    ensures BinomialTerm(n, a)(k) == BinomialTerm(n - 1, a)(k) + if k == 0 then 0 else a * BinomialTerm(n - 1, a)(k - 1)
  {
    hide Pow;
    if k > 0 {
      var c, d := Choose(n - 1, k - 1), Choose(n - 1, k);
      MulDistributes(c, d, Pow(a, k));
      PowNext(a, k);
      MulShuffle(a, c, Pow(a, k - 1));
      MulShuffle(c, a, Pow(a, k - 1));
      MulComm(a, c);
      MulAssoc(c, a, Pow(a, k - 1));
    }
  }

  lemma {:induction false} SumShift(f: int -> int, up: int -> int, a: int, n: nat)
    requires up(0) == 0
    requires forall k :: 0 < k <= n ==> up(k) == a * f(k - 1)
    ensures Sum(up, n + 1) == a * Sum(f, n)
  {
    if n > 0 {
      SumShift(f, up, a, n - 1);
      MulDistributes(Sum(f, n - 1), f(n - 1), a);
    } else {
      assert Sum(up, 1) == Sum(up, 0) + up(0);
      MulComm(a, 0);
    }
  }

  // ---------------------------------------------------------------------
  // Fermat's little theorem
  // ---------------------------------------------------------------------

  /** A prime divides its inner binomial coefficients. */
  lemma InnerChoose(p: nat, k: nat)
    requires Prime(p) && 0 < k < p
    ensures Cong(Choose(p, k), 0, p)
  {
    Absorb(p, k);
    var c, d := Choose(p, k), Choose(p - 1, k - 1);
    hide Cong, Choose;
    CongIntro(k * c, 0, d, p);
    SmallNotZero(k, p);
    Euclid(k, c, p);
  }

  ghost function Ends(n: nat, first: int, last: int): int -> int {
    k => if k == 0 then first else if k == n then last else 0
  }

  /** The freshman's dream. */
  lemma Freshman(a: int, p: nat)
    requires Prime(p)
    ensures Cong(Pow(a + 1, p), Pow(a, p) + 1, p)
  {
    Binomial(p, a);
    var g := Ends(p, 1, Pow(a, p));
    hide Sum, Pow;
    forall k | 0 <= k < p + 1
      ensures Cong(BinomialTerm(p, a)(k), g(k), p)
    {
      FreshmanTerm(a, p, k);
    }
    hide Cong;
    SumCong(BinomialTerm(p, a), g, p + 1, p);
    SumNext(g, p);
    SumSingle(g, p, 0);
  }

  lemma FreshmanTerm(a: int, p: nat, k: nat)
    requires Prime(p) && k <= p
    ensures Cong(BinomialTerm(p, a)(k), Ends(p, 1, Pow(a, p))(k), p)
  {
    hide Cong;
    if k == 0 {
      assert Pow(a, 0) == 1;
      CongRefl(1, p);
    } else if k == p {
      ChooseAll(p);
      CongRefl(Pow(a, p), p);
    } else {
      hide Pow;
      InnerChoose(p, k);
      CongMulLeft(Pow(a, k), Choose(p, k), 0, p);
    }
  }

  lemma {:induction false} FermatPower(a: nat, p: nat)
    requires Prime(p)
    ensures Cong(Pow(a, p), a, p)
    decreases a
  {
    assert p > 0;
    hide Cong, Pow, Prime;
    if a == 0 {
      PowNext(0, p);
      MulComm(0, Pow(0, p - 1));
      CongRefl(0, p);
    } else {
      FermatPower(a - 1, p);
      Freshman(a - 1, p);
      CongRefl(1, p);
      CongAdd(Pow(a - 1, p), a - 1, 1, 1, p);
      CongTrans(Pow(a, p), Pow(a - 1, p) + 1, a, p);
    }
  }

  /** Fermat's little theorem. */
  lemma Fermat(a: nat, p: nat)
    requires Prime(p) && !Cong(a, 0, p)
    ensures Cong(Pow(a, p - 1), 1, p)
  {
    assert p >= 2;
    hide Pow, Prime, Cong;
    FermatPower(a, p);
    PowNext(a, p);
    assert a * 1 == a;
    Cancel(a, Pow(a, p - 1), 1, p);
  }
}
