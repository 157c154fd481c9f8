/** The primality test and prime generator of rECp1cG's challenge.py. */
module MillerRabin {
  import opened ModArith
  import opened Bits
  import opened Primes
  import opened Options

  const SMALL: seq<int> := [2, 3, 5, 7, 11, 13, 17, 19, 23, 29, 31, 37, 41, 43,
                            47, 53, 59, 61, 67, 71, 73, 79, 83, 89, 97]
  const BASES: seq<int> := [2, 3, 5, 7, 11, 13, 17, 19, 23, 29, 31, 37, 41, 43,
                            47, 53, 59, 61]

  // ---------------------------------------------------------------------
  // What the test decides
  // ---------------------------------------------------------------------

  /** x - 1 = odd * 2^power with odd odd. */
  ghost predicate Decomposes(x: int, odd: nat, power: nat) {
    odd % 2 == 1 && x - 1 == odd * Pow(2, power)
  }

  /** base^odd squared r times. */
  ghost function Chain(base: int, odd: nat, r: nat): int {
    Pow(base, odd * Pow2(r))
  }

  function Pow2(r: nat): nat {
    if r == 0 then 1 else 2 * Pow2(r - 1)
  }

  /** x is a strong probable prime to the base: the squaring chain reaches 1 through -1. */
  ghost predicate StrongProbablePrime(x: int, base: int, odd: nat, power: nat)
    requires x > 1
  {
    || Cong(Chain(base, odd, 0), 1, x)
    || Cong(Chain(base, odd, 0), -1, x)
    || exists r :: 0 < r < power && Cong(Chain(base, odd, r), -1, x)
  }

  ghost predicate Passes(x: int, base: int, odd: nat, power: nat)
    requires x > 1
  {
    base % x == 0 || StrongProbablePrime(x, base, odd, power)
  }

  lemma {:induction false} Pow2IsPow(r: nat)
    ensures Pow2(r) == Pow(2, r) > 0
  {
    if r > 0 {
      Pow2IsPow(r - 1);
    }
  }

  lemma ChainStep(base: int, odd: nat, r: nat)
    ensures Chain(base, odd, r + 1) == Chain(base, odd, r) * Chain(base, odd, r)
  {
    hide Pow;
    var e := odd * Pow2(r);
    assert odd * Pow2(r + 1) == e + e;
    assert e >= 0;
    PowAdd(base, e, e);
  }

  lemma ChainTop(x: int, base: int, odd: nat, power: nat)
    requires Decomposes(x, odd, power)
    ensures Chain(base, odd, power) == Pow(base, x - 1)
  {
    Pow2IsPow(power);
  }

  lemma ChainBottom(base: int, odd: nat)
    ensures Chain(base, odd, 0) == Pow(base, odd)
  {
    assert odd * 1 == odd;
  }

  /** Nothing at or below step r of the chain is 1 or -1. */
  ghost predicate Unresolved(x: int, base: int, odd: nat, r: nat)
    requires x > 1
  {
    forall i :: 0 <= i <= r ==> !Cong(Chain(base, odd, i), 1, x) && !Cong(Chain(base, odd, i), -1, x)
  }

  /** For a prime, squaring cannot produce one without passing through one or minus one. */
  lemma UnresolvedStep(x: int, base: int, odd: nat, r: nat)
    requires Prime(x) && Unresolved(x, base, odd, r)
    ensures !Cong(Chain(base, odd, r + 1), 1, x)
  {
    hide Cong, Chain;
    ChainStep(base, odd, r);
    if Cong(Chain(base, odd, r + 1), 1, x) {
      RootsOfOne(Chain(base, odd, r), x);
    }
  }

  lemma {:induction false} ReachesOne(x: int, base: int, odd: nat, power: nat, r: nat)
    requires Prime(x) && Cong(Chain(base, odd, power), 1, x) && r <= power
    requires !Cong(Chain(base, odd, 0), 1, x)
    requires forall i :: 0 <= i < r ==> !Cong(Chain(base, odd, i), -1, x)
    ensures !Cong(Chain(base, odd, r), 1, x)
  {
    hide Cong, Chain;
    if r > 0 {
      forall i | 0 <= i < r ensures !Cong(Chain(base, odd, i), 1, x) {
        ReachesOne(x, base, odd, power, i);
      }
      UnresolvedStep(x, base, odd, r - 1);
    }
  }

  /** Every prime passes for every base. */
  lemma PrimePasses(x: int, base: nat, odd: nat, power: nat)
    requires Prime(x) && Decomposes(x, odd, power) && base % x != 0
    ensures StrongProbablePrime(x, base, odd, power)
  {
    ZeroIffDivides(base, x);
    Fermat(base, x);
    ChainTop(x, base, odd, power);
    hide Cong, Chain, Pow;
    if !StrongProbablePrime(x, base, odd, power) {
      ReachesOne(x, base, odd, power, power);
    }
  }

  // ---------------------------------------------------------------------
  // Trial division
  // ---------------------------------------------------------------------

  ghost predicate NoSmallFactor(x: int) {
    forall i :: 0 <= i < |SMALL| ==> x % SMALL[i] != 0
  }

  lemma DivisorTransfers(x: int, d: int, q: int)
    requires d > 0 && q > 0 && x % d == 0 && d % q == 0
    ensures x % q == 0
  {
    var s, t := x / d, d / q;
    assert x == s * d && d == t * q;
    MulAssoc(s, t, q);
    DivModUnique(s * t, 0, q);
  }

  predicate ListedAbove7(d: int) {
    d == 11 || d == 13 || d == 17 || d == 19 || d == 23 || d == 29 || d == 31 || d == 37 || d == 41 || d == 43
    || d == 47 || d == 53 || d == 59 || d == 61 || d == 67 || d == 71 || d == 73 || d == 79 || d == 83 || d == 89
    || d == 97
  }

  lemma SieveTo100(d: int)
    requires 2 <= d <= 100 && d % 2 != 0 && d % 3 != 0 && d % 5 != 0 && d % 7 != 0
    ensures ListedAbove7(d)
  {
    var q, r := d / 30, d % 30;
    assert d == 30 * q + r && (q == 0 || q == 1 || q == 2 || q == 3);
    assert d != 7 && d != 49 && d != 77 && d != 91;
    WheelOf(d, q, r);
    Wheel30(r);
  }

  lemma WheelOf(d: int, q: int, r: int)
    requires d == 30 * q + r
    ensures r % 2 == d % 2 && r % 3 == d % 3 && r % 5 == d % 5
  {
    CongIntro(d, r, 15 * q, 2);
    CongIntro(d, r, 10 * q, 3);
    CongIntro(d, r, 6 * q, 5);
  }

  /** The residues modulo 30 that have no factor 2, 3 or 5. */
  lemma Wheel30(r: int)
    requires 0 <= r < 30 && r % 2 != 0 && r % 3 != 0 && r % 5 != 0
    ensures r == 1 || r == 7 || r == 11 || r == 13 || r == 17 || r == 19 || r == 23 || r == 29
  {
  }

  /** Every number from 2 to 100 is a listed prime or has a factor among 2, 3, 5 and 7. */
  lemma SmallCovers(d: int)
    requires 2 <= d <= 100 && d % 2 != 0 && d % 3 != 0 && d % 5 != 0 && d % 7 != 0
    ensures d in SMALL
  {
    SieveTo100(d);
    ListedInSmall(d);
  }

  lemma ListedInSmall(d: int)
    requires ListedAbove7(d)
    ensures d in SMALL
  {
    assert SMALL[4] == 11 && SMALL[5] == 13 && SMALL[6] == 17 && SMALL[7] == 19 && SMALL[8] == 23 && SMALL[9] == 29;
    assert SMALL[10] == 31 && SMALL[11] == 37 && SMALL[12] == 41 && SMALL[13] == 43 && SMALL[14] == 47;
    assert SMALL[15] == 53 && SMALL[16] == 59 && SMALL[17] == 61 && SMALL[18] == 67 && SMALL[19] == 71;
    assert SMALL[20] == 73 && SMALL[21] == 79 && SMALL[22] == 83 && SMALL[23] == 89 && SMALL[24] == 97;
  }

  lemma NoDivisorTo100(x: int, d: int)
    requires NoSmallFactor(x) && 2 <= d <= 100
    ensures x % d != 0
  {
    if x % d == 0 {
      assert SMALL[0] == 2 && SMALL[1] == 3 && SMALL[2] == 5 && SMALL[3] == 7;
      if d % 2 == 0 { DivisorTransfers(x, d, 2); }
      else if d % 3 == 0 { DivisorTransfers(x, d, 3); }
      else if d % 5 == 0 { DivisorTransfers(x, d, 5); }
      else if d % 7 == 0 { DivisorTransfers(x, d, 7); }
      else {
        SmallCovers(d);
      }
    }
  }

  /** The listed small numbers are prime. */
  lemma SmallPrime(x: int)
    requires x in SMALL
    ensures Prime(x)
  {
    assert 2 <= x < 100 by {
      var i :| 0 <= i < |SMALL| && SMALL[i] == x;
      assert i < 25;
    }
    SmallListed(x);
    forall d | 2 <= d < 10 && d < x ensures x % d != 0 {
      SiftedTrial(x, d);
    }
    PrimeBelowSquare(x, 10);
  }

  lemma SiftedTrial(x: int, d: int)
    requires Sifted(x) && 2 <= d < 10 && d < x
    ensures x % d != 0
  {
    if x % d == 0 {
      if d % 2 == 0 { DivisorTransfers(x, d, 2); }
      else if d % 3 == 0 { DivisorTransfers(x, d, 3); }
    }
  }

  /** Not a proper multiple of 2, 3, 5 or 7. */
  predicate Sifted(x: int) {
    (x == 2 || x % 2 != 0) && (x == 3 || x % 3 != 0) && (x == 5 || x % 5 != 0) && (x == 7 || x % 7 != 0)
  }

  lemma SmallSifted()
    ensures Sifted(2) && Sifted(3) && Sifted(5) && Sifted(7) && Sifted(11) && Sifted(13) && Sifted(17) && Sifted(19)
            && Sifted(23)
    ensures Sifted(29) && Sifted(31) && Sifted(37) && Sifted(41) && Sifted(43) && Sifted(47) && Sifted(53)
            && Sifted(59) && Sifted(61)
    ensures Sifted(67) && Sifted(71) && Sifted(73) && Sifted(79) && Sifted(83) && Sifted(89) && Sifted(97)
  {
  }

  lemma SmallListed(x: int)
    requires x in SMALL
    ensures Sifted(x)
  {
    SmallSifted();
    hide Sifted;
    var i :| 0 <= i < |SMALL| && SMALL[i] == x;
    assert |SMALL| == 25;
    assert i == 0 || i == 1 || i == 2 || i == 3 || i == 4 || i == 5 || i == 6 || i == 7 || i == 8 || i == 9
           || i == 10 || i == 11 || i == 12 || i == 13 || i == 14 || i == 15 || i == 16 || i == 17 || i == 18
           || i == 19 || i == 20 || i == 21 || i == 22 || i == 23 || i == 24;
  }

  // ---------------------------------------------------------------------
  // The test
  // ---------------------------------------------------------------------

  /** The verdict of is_prime, for every integer. */
  ghost predicate Accepts(x: int) {
    x >= 2 &&
    (x in SMALL ||
     (NoSmallFactor(x) &&
      forall odd: nat, power: nat :: Decomposes(x, odd, power) ==>
                                       forall i :: 0 <= i < |BASES| ==> Passes(x, BASES[i], odd, power)))
  }

  lemma PrimeHasNoSmallFactor(x: int)
    requires Prime(x) && x !in SMALL
    ensures NoSmallFactor(x)
  {
    forall i | 0 <= i < |SMALL| ensures x % SMALL[i] != 0 {
      SmallBounds(i);
      if x < SMALL[i] {
        ModSmall(x, SMALL[i]);
      }
    }
  }

  lemma SmallBounds(i: nat)
    requires i < |SMALL|
    ensures 2 <= SMALL[i] <= 97 && SMALL[i] in SMALL
  {
    assert |SMALL| == 25;
  }

  /** No prime is rejected. */
  lemma PrimeAccepted(x: int)
    requires Prime(x)
    ensures Accepts(x)
  {
    if x !in SMALL {
      PrimeHasNoSmallFactor(x);
      forall odd: nat, power: nat, i | Decomposes(x, odd, power) && 0 <= i < |BASES|
        ensures Passes(x, BASES[i], odd, power)
      {
        assert BASES[i] >= 0;
        if BASES[i] % x != 0 {
          PrimePasses(x, BASES[i], odd, power);
        }
      }
    }
  }

  /** Below 101 squared trial division alone decides, so the test is exact. */
  lemma AcceptExactSmall(x: int)
    requires x < 10201
    ensures Accepts(x) <==> Prime(x)
  {
    if Prime(x) {
      PrimeAccepted(x);
    } else if Accepts(x) {
      if x in SMALL {
        SmallPrime(x);
      } else {
        forall d | 2 <= d < 101 && d < x ensures x % d != 0 {
          NoDivisorTo100(x, d);
        }
        PrimeBelowSquare(x, 101);
      }
    }
  }

  // ---------------------------------------------------------------------
  // The verdict in terms of powers
  // ---------------------------------------------------------------------

  /** c^(x-1) is 1, and halving the exponent as long as that gives 1 never ends in anything but 1 or -1. */
  ghost predicate OnlyTrivialRoots(x: int, c: nat)
    requires x > 1
  {
    && Cong(Pow(c, x - 1), 1, x)
    && forall e: nat, i: nat :: i > 0 && x - 1 == e * Pow(2, i) && Cong(Pow(c, 2 * e), 1, x) ==>
                                  Cong(Pow(c, e), 1, x) || Cong(Pow(c, e), -1, x)
  }

  lemma HalvesAreChain(x: int, odd: nat, power: nat, e: nat, i: nat) returns (r: nat)
    requires x > 1 && Decomposes(x, odd, power) && i > 0 && x - 1 == e * Pow(2, i)
    ensures r < power && e == odd * Pow2(r) && 2 * e == odd * Pow2(r + 1)
  {
    hide Pow;
    Pow2IsPow(i);
    Pow2IsPow(power);
    r := HalvesAre(odd, power, e, i);
    DoubledProduct(odd, r + 1);
  }

  lemma DoubledProduct(a: nat, p: nat)
    requires p > 0
    ensures a * Pow2(p) == 2 * (a * Pow2(p - 1))
  {
    MulAssoc(2, a, Pow2(p - 1));
    MulComm(2, a);
    MulAssoc(a, 2, Pow2(p - 1));
  }

  lemma {:induction false} HalvesAre(odd: nat, power: nat, e: nat, i: nat) returns (r: nat)
    requires odd % 2 == 1 && i > 0 && e * Pow2(i) == odd * Pow2(power)
    ensures r < power && e == odd * Pow2(r)
    decreases i
  {
    EvenMultiple(e, i);
    if power > 0 {
      DoubledProduct(e, i);
      DoubledProduct(odd, power);
      if i == 1 {
        assert e * 1 == e;
        r := power - 1;
      } else {
        r := HalvesAre(odd, power - 1, e, i - 1);
      }
    }
  }

  lemma ChainIsHalf(x: int, odd: nat, power: nat, r: nat)
    requires x > 1 && Decomposes(x, odd, power) && r < power
    ensures odd * Pow2(r) >= 0 && x - 1 == (odd * Pow2(r)) * Pow(2, power - r)
    ensures 2 * (odd * Pow2(r)) == odd * Pow2(r + 1)
  {
    PowAdd(2, r, power - r);
    Pow2IsPow(r);
    DoubledProduct(odd, r + 1);
    hide Pow, Pow2;
    MulAssoc(odd, Pow2(r), Pow(2, power - r));
    MulMonotone(0, odd, Pow2(r));
  }

  /** Above a step that is 1 or -1 the chain is 1. */
  lemma {:induction false} ChainStays(x: int, base: int, odd: nat, r: nat, t: nat)
    requires x > 1 && r < t && (Cong(Chain(base, odd, r), 1, x) || Cong(Chain(base, odd, r), -1, x))
    ensures Cong(Chain(base, odd, t), 1, x)
    decreases t
  {
    hide Cong, Chain;
    ChainStep(base, odd, t - 1);
    var y := Chain(base, odd, t - 1);
    if r < t - 1 {
      ChainStays(x, base, odd, r, t - 1);
    }
    if Cong(y, 1, x) {
      CongMul(y, 1, y, 1, x);
    } else {
      CongMul(y, -1, y, -1, x);
    }
  }

  lemma OneIsNotMinusOne(c: int, x: int)
    requires x > 2 && Cong(c, 1, x)
    ensures !Cong(c, -1, x)
  {
    ModSmall(1, x);
    ModSmall(x - 1, x);
    CongIntro(x - 1, -1, 1, x);
  }

  lemma StrongOnlyTrivial(x: int, c: nat, odd: nat, power: nat)
    requires x > 2 && power > 0 && Decomposes(x, odd, power) && StrongProbablePrime(x, c, odd, power)
    ensures OnlyTrivialRoots(x, c)
  {
    hide Cong, Chain, Pow, Decomposes;
    var s: nat := 0;
    if !Cong(Chain(c, odd, 0), 1, x) && !Cong(Chain(c, odd, 0), -1, x) {
      s :| 0 < s < power && Cong(Chain(c, odd, s), -1, x);
    }
    ChainTop(x, c, odd, power);
    ChainStays(x, c, odd, s, power);
    forall e: nat, i: nat | i > 0 && x - 1 == e * Pow(2, i) && Cong(Pow(c, 2 * e), 1, x)
      ensures Cong(Pow(c, e), 1, x) || Cong(Pow(c, e), -1, x)
    {
      var t := HalvesAreChain(x, odd, power, e, i);
      ChainPowers(c, odd, t, e);
      if t > s {
        ChainStays(x, c, odd, s, t);
      } else if t < s {
        OneIsNotMinusOne(Chain(c, odd, s), x) by {
          if t + 1 < s {
            ChainStays(x, c, odd, t + 1, s);
          }
        }
      }
    }
  }

  lemma ChainPowers(c: int, odd: nat, r: nat, e: nat)
    requires e == odd * Pow2(r) && 2 * e == odd * Pow2(r + 1)
    ensures Chain(c, odd, r) == Pow(c, e) && Chain(c, odd, r + 1) == Pow(c, 2 * e)
  {
  }

  /** Below a step that is 1, the chain either is 1 at the bottom or -1 on the way. */
  lemma {:induction false} DescendToMinusOne(x: int, c: nat, odd: nat, power: nat, r: nat)
    requires x > 2 && Decomposes(x, odd, power) && OnlyTrivialRoots(x, c) && r <= power
    requires Cong(Chain(c, odd, r), 1, x)
    ensures StrongProbablePrime(x, c, odd, power)
    decreases r
  {
    hide Cong, Chain, Pow, Decomposes;
    if r > 0 {
      var e := odd * Pow2(r - 1);
      ChainIsHalf(x, odd, power, r - 1);
      ChainPowers(c, odd, r - 1, e);
      if Cong(Pow(c, e), 1, x) {
        DescendToMinusOne(x, c, odd, power, r - 1);
      }
    }
  }

  lemma StrongIff(x: int, c: nat, odd: nat, power: nat)
    requires x > 2 && power > 0 && Decomposes(x, odd, power)
    ensures StrongProbablePrime(x, c, odd, power) <==> OnlyTrivialRoots(x, c)
  {
    hide Cong, Chain, Pow;
    if StrongProbablePrime(x, c, odd, power) {
      StrongOnlyTrivial(x, c, odd, power);
    }
    if OnlyTrivialRoots(x, c) {
      ChainTop(x, c, odd, power);
      DescendToMinusOne(x, c, odd, power, power);
    }
  }

  ghost predicate NoDivisorUpTo(x: int, m: int) {
    forall d :: 2 <= d <= m ==> x % d != 0
  }

  ghost predicate EighteenBases(x: int)
    requires x > 1
  {
    forall c :: c in [2, 3, 5, 7, 11, 13, 17, 19, 23, 29, 31, 37, 41, 43, 47, 53, 59, 61] ==> OnlyTrivialRoots(x, c)
  }

  /** Above 97 the verdict is: no divisor up to 100, and only trivial roots of one for each of the 18 bases. */
  lemma AcceptsIff(x: int)
    requires x > 97
    ensures Accepts(x) <==> NoDivisorUpTo(x, 100) && EighteenBases(x)
  {
    NotListed(x);
    SmallFactors(x);
    if NoSmallFactor(x) {
      assert SMALL[0] == 2 && x % 2 == 1;
      var odd, power := OddPart(x);
      BasesListed();
      hide Decomposes, Passes, NoSmallFactor, OnlyTrivialRoots;
      forall o: nat, p: nat | Decomposes(x, o, p)
        ensures o == odd && p == power
      {
        DecomposesUnique(x, o, p, odd, power);
      }
      forall i | 0 <= i < |BASES|
        ensures Passes(x, BASES[i], odd, power) <==> OnlyTrivialRoots(x, BASES[i])
      {
        PassesIff(x, BASES[i], odd, power);
      }
      assert forall i :: 0 <= i < |BASES| ==> BASES[i] in BASES;
    }
  }

  lemma PassesIff(x: int, c: nat, odd: nat, power: nat)
    requires x > 97 && 2 <= c <= 61 && power > 0 && Decomposes(x, odd, power)
    ensures Passes(x, c, odd, power) <==> OnlyTrivialRoots(x, c)
  {
    ModSmall(c, x);
    StrongIff(x, c, odd, power);
  }

  lemma BasesListed()
    ensures BASES == [2, 3, 5, 7, 11, 13, 17, 19, 23, 29, 31, 37, 41, 43, 47, 53, 59, 61]
    ensures forall i :: 0 <= i < |BASES| ==> 2 <= BASES[i] <= 61
  {
    assert |BASES| == 18;
  }

  lemma NotListed(x: int)
    requires x > 97
    ensures x !in SMALL
  {
    if i :| 0 <= i < |SMALL| && SMALL[i] == x {
      SmallBounds(i);
    }
  }

  lemma SmallFactors(x: int)
    ensures NoSmallFactor(x) <==> NoDivisorUpTo(x, 100)
  {
    if NoSmallFactor(x) {
      forall d | 2 <= d <= 100 ensures x % d != 0 {
        NoDivisorTo100(x, d);
      }
    }
    if NoDivisorUpTo(x, 100) {
      forall i | 0 <= i < |SMALL| ensures x % SMALL[i] != 0 {
        SmallBounds(i);
      }
    }
  }

  lemma OddPart(x: int) returns (odd: nat, power: nat)
    requires x > 1 && x % 2 == 1
    ensures power > 0 && Decomposes(x, odd, power)
  {
    hide Pow;
    odd, power := (x - 1) / 2, 1;
    PowNext(2, 1);
    while odd % 2 == 0
      invariant odd > 0 && power > 0 && x - 1 == odd * Pow(2, power)
      decreases odd
    {
      HalfStep(odd, power);
      odd := odd / 2;
      power := power + 1;
    }
  }

  lemma PowerOfFive()
    ensures Pow(2, 5) == 32
  {
  }

  /** 2^81, 2^1300 and 2^10402 modulo 10403. */
  lemma PowerTo81()
    ensures Pow(2, 81) % 10403 == 9157
  {
    hide Pow;
    PowerOfFive();
    PowSquareStep(2, 5, 32, 1024, 10403);
    PowSquareStep(2, 10, 1024, 8276, 10403);
    PowSquareStep(2, 20, 8276, 9227, 10403);
    PowSquareStep(2, 40, 9227, 9780, 10403);
    PowDoubleStep(80, 9780, 9157, 10403);
  }

  lemma PowerTo1300()
    ensures Pow(2, 1300) % 10403 == 9495
  {
    hide Pow;
    PowerTo81();
    PowSquareStep(2, 81, 9157, 2469, 10403);
    PowSquareStep(2, 162, 2469, 10206, 10403);
    PowDoubleStep(324, 10206, 10009, 10403);
    PowSquareStep(2, 325, 10009, 9594, 10403);
    PowSquareStep(2, 650, 9594, 9495, 10403);
  }

  lemma PowersModulo10403()
    ensures Pow(2, 10402) % 10403 == 9296
  {
    hide Pow;
    PowerTo1300();
    PowSquareStep(2, 1300, 9495, 2627, 10403);
    PowSquareStep(2, 2600, 2627, 3940, 10403);
    PowDoubleStep(5200, 3940, 7880, 10403);
    PowSquareStep(2, 5201, 7880, 9296, 10403);
  }

  lemma TwoIsAWitness()
    ensures !OnlyTrivialRoots(10403, 2)
  {
    PowersModulo10403();
    hide Pow;
  }

  /** The verdict below and above the last small prime. */
  lemma Verdict(x: int)
    ensures x <= 97 ==> (Accepts(x) <==> Prime(x))
    ensures x > 97 ==> (Accepts(x) <==> NoDivisorUpTo(x, 100) && EighteenBases(x))
  {
    hide Accepts, NoDivisorUpTo, EighteenBases, Prime;
    if x > 97 {
      AcceptsIff(x);
    } else {
      AcceptExactSmall(x);
    }
  }

  /** 10403 = 101 * 103 has no divisor up to 100; it is base 2 that finds it out. */
  lemma CompositeRejected()
    ensures NoDivisorUpTo(10403, 100) && !Accepts(10403)
  {
    TwoPrimesOnly();
    TwoIsAWitness();
    hide OnlyTrivialRoots, NoDivisorUpTo, Accepts;
    AcceptsIff(10403);
    assert 2 in [2, 3, 5, 7, 11, 13, 17, 19, 23, 29, 31, 37, 41, 43, 47, 53, 59, 61];
  }

  lemma PowDoubleStep(e: nat, c: int, d: int, m: int)
    requires m > 0 && Pow(2, e) % m == c && (2 * c) % m == d
    ensures Pow(2, e + 1) % m == d
  {
    PowNext(2, e + 1);
    CongSelfMod(Pow(2, e), m);
    CongMulLeft(2, c, Pow(2, e), m);
  }

  lemma TwoPrimesOnly()
    ensures NoDivisorUpTo(10403, 100)
  {
    assert |SMALL| == 25;
    forall i | 0 <= i < |SMALL| ensures 10403 % SMALL[i] != 0 {
      assert i == 0 || i == 1 || i == 2 || i == 3 || i == 4 || i == 5 || i == 6 || i == 7 || i == 8 || i == 9
             || i == 10 || i == 11 || i == 12 || i == 13 || i == 14 || i == 15 || i == 16 || i == 17 || i == 18
             || i == 19 || i == 20 || i == 21 || i == 22 || i == 23 || i == 24;
    }
    SmallFactors(10403);
  }

  // ---------------------------------------------------------------------
  // The loops
  // ---------------------------------------------------------------------

  lemma EvenMultiple(b: nat, q: nat)
    requires q > 0
    ensures (b * Pow2(q)) % 2 == 0
  {
    MulShuffle(b, 2, Pow2(q - 1));
    assert b * Pow2(q) == 2 * (b * Pow2(q - 1));
  }

  lemma {:induction false} OddPartUnique(a: nat, p: nat, b: nat, q: nat)
    requires a % 2 == 1 && b % 2 == 1 && a * Pow2(p) == b * Pow2(q)
    ensures a == b && p == q
  {
    if p == 0 && q > 0 {
      EvenMultiple(b, q);
    } else if q == 0 && p > 0 {
      EvenMultiple(a, p);
    } else if p > 0 {
      MulShuffle(a, 2, Pow2(p - 1));
      MulShuffle(b, 2, Pow2(q - 1));
      OddPartUnique(a, p - 1, b, q - 1);
    }
  }

  lemma DecomposesUnique(x: int, a: nat, p: nat, b: nat, q: nat)
    requires Decomposes(x, a, p) && Decomposes(x, b, q)
    ensures a == b && p == q
  {
    Pow2IsPow(p);
    Pow2IsPow(q);
    OddPartUnique(a, p, b, q);
  }

  /** Halves x - 1 while it is even. */
  method SplitOdd(x: int) returns (odd: nat, power: nat)
    requires x > 1
    ensures Decomposes(x, odd, power)
  {
    hide Pow;
    odd, power := x - 1, 0;
    PowZero(2);
    while odd % 2 == 0
      invariant odd > 0 && x - 1 == odd * Pow(2, power)
      decreases odd
    {
      HalfStep(odd, power);
      odd := odd / 2;
      power := power + 1;
    }
  }

  lemma HalfStep(odd: nat, power: nat)
    requires odd % 2 == 0
    ensures odd * Pow(2, power) == (odd / 2) * Pow(2, power + 1)
  {
    hide Pow;
    var h, w := odd / 2, Pow(2, power);
    PowNext(2, power + 1);
    MulShuffle(h, w, 2);
    MulAssoc(2, h, w);
    assert odd == 2 * h;
    MulComm(2, h);
    MulAssoc(h, 2, w);
  }

  /** Squares y along the chain, looking for minus one. */
  method PassesBase(x: int, base: nat, odd: nat, power: nat) returns (b: bool)
    requires x > 2
    ensures b == Passes(x, base, odd, power)
  {
    hide Cong, Chain, Pow;
    if base % x == 0 {
      return true;
    }
    var y := Pow(base, odd) % x;
    ChainBottom(base, odd);
    CongSelfMod(Chain(base, odd, 0), x);
    ResidueVerdict(Chain(base, odd, 0), y, x);
    if y == 1 || y == x - 1 {
      return true;
    }
    var r := 0;
    while r + 1 < power
      invariant 0 <= r && Cong(y, Chain(base, odd, r), x) && 0 <= y < x
      invariant forall i :: 0 < i <= r ==> !Cong(Chain(base, odd, i), -1, x)
      decreases power - r
    {
      CongMul(y, Chain(base, odd, r), y, Chain(base, odd, r), x);
      ChainStep(base, odd, r);
      SquareResidue(y, Chain(base, odd, r + 1), x);
      y := (y * y) % x;
      r := r + 1;
      ResidueVerdict(Chain(base, odd, r), y, x);
      if y == x - 1 {
        return true;
      }
    }
    b := false;
  }

  lemma SquareResidue(y: int, c: int, x: int)
    requires x > 0 && Cong(y * y, c, x)
    ensures Cong((y * y) % x, c, x) && 0 <= (y * y) % x < x
  {
    CongSelfMod(y * y, x);
  }

  /** A canonical residue is 1 or x - 1 exactly when what it stands for is 1 or -1. */
  lemma ResidueVerdict(c: int, y: int, x: int)
    requires x > 2 && 0 <= y < x && Cong(y, c, x)
    ensures y == 1 <==> Cong(c, 1, x)
    ensures y == x - 1 <==> Cong(c, -1, x)
  {
    ModSmall(y, x);
    ModSmall(1, x);
    ModSmall(x - 1, x);
    CongIntro(x - 1, -1, 1, x);
  }

  method IsPrime(x: int) returns (b: bool)
    ensures b == Accepts(x)
    ensures x <= 97 ==> (b <==> Prime(x))
    ensures x > 97 ==> (b <==> NoDivisorUpTo(x, 100) && EighteenBases(x))
  {
    hide Accepts, Passes, Decomposes, Prime, NoDivisorUpTo, EighteenBases;
    Verdict(x);
    TooSmall(x);
    if x < 2 {
      return false;
    }
    for i := 0 to |SMALL|
      invariant forall k :: 0 <= k < i ==> x != SMALL[k] && x % SMALL[k] != 0
    {
      SmallBounds(i);
      if x == SMALL[i] {
        ListedAccepted(x);
        return true;
      }
      if x % SMALL[i] == 0 {
        RejectedBySmall(x, i);
        return false;
      }
    }
    assert x > 2 by { assert SMALL[0] == 2; }
    var odd, power := SplitOdd(x);
    for i := 0 to |BASES|
      invariant forall k :: 0 <= k < i ==> Passes(x, BASES[k], odd, power)
    {
      BaseBounds(i);
      var passed := PassesBase(x, BASES[i], odd, power);
      if !passed {
        BaseRejects(x, odd, power, i);
        return false;
      }
    }
    AllBasesPassed(x, odd, power);
    b := true;
  }

  lemma TooSmall(x: int)
    ensures x < 2 ==> !Accepts(x)
  {
  }

  lemma ListedAccepted(x: int)
    requires x >= 2 && x in SMALL
    ensures Accepts(x)
  {
  }

  lemma BaseRejects(x: int, odd: nat, power: nat, i: nat)
    requires x >= 2 && forall k :: 0 <= k < |SMALL| ==> x != SMALL[k]
    requires Decomposes(x, odd, power) && i < |BASES| && !Passes(x, BASES[i], odd, power)
    ensures !Accepts(x)
  {
    hide Passes, Decomposes;
  }

  lemma AllBasesPassed(x: int, odd: nat, power: nat)
    requires x >= 2 && NoSmallFactor(x) && Decomposes(x, odd, power)
    requires forall k :: 0 <= k < |BASES| ==> Passes(x, BASES[k], odd, power)
    ensures Accepts(x)
  {
    hide Passes, Decomposes;
    forall o: nat, p: nat, k | Decomposes(x, o, p) && 0 <= k < |BASES| ensures Passes(x, BASES[k], o, p) {
      DecomposesUnique(x, odd, power, o, p);
    }
  }

  lemma BaseBounds(i: nat)
    requires i < |BASES|
    ensures BASES[i] >= 2
  {
    assert |BASES| == 18;
  }

  /** A proper multiple of a listed prime is not listed. */
  lemma RejectedBySmall(x: int, i: nat)
    requires x >= 2 && i < |SMALL| && x % SMALL[i] == 0 && x != SMALL[i]
    ensures !Accepts(x)
  {
    SmallBounds(i);
    if x in SMALL {
      SmallPrime(x);
      if SMALL[i] > x {
        ModSmall(x, SMALL[i]);
      }
      assert false;
    }
  }

  /** The test is complete: no prime is rejected; and exact wherever trial division suffices. */
  method ClassifyPrime(x: int) returns (b: bool)
    ensures Prime(x) ==> b
    ensures x < 10201 ==> (b <==> Prime(x))
  {
    b := IsPrime(x);
    if Prime(x) {
      PrimeAccepted(x);
    }
    if x < 10201 {
      AcceptExactSmall(x);
    }
  }

  // ---------------------------------------------------------------------
  // Choosing a prime
  // ---------------------------------------------------------------------

  lemma OrThree(x: nat)
    ensures Or(x, 3) % 4 == 3
  {
    hide Or;
    OrDouble(x, 1);
    OrDouble(x / 2, 0);
  }

  /** p is the first candidate that is accepted. */
  ghost predicate FirstPrime(draws: seq<nat>, bits: nat, p: int)
    requires bits > 0
  {
    exists i :: && 0 <= i < |draws| && p == Candidate(draws[i], bits) && Accepts(p)
                && forall k :: 0 <= k < i ==> !Accepts(Candidate(draws[k], bits))
  }

  /**
   The first accepted candidate among the random draws, with its two low bits
   forced to one. The source draws without end; here the draws are an input.
   */
  method MakePrime(bits: nat, draws: seq<nat>) returns (r: Option<int>)
    requires bits > 0
    ensures r.Some? ==> r.value % 4 == 3 && r.value > 2 && Accepts(r.value)
    ensures r.None? <==> forall i :: 0 <= i < |draws| ==> !Accepts(Candidate(draws[i], bits))
    ensures r.Some? ==> FirstPrime(draws, bits, r.value)
  {
    hide Accepts;
    for i := 0 to |draws|
      invariant forall k :: 0 <= k < i ==> !Accepts(Candidate(draws[k], bits))
    {
      var x := Candidate(draws[i], bits);
      OrThree(Or(draws[i], Pow2(bits - 1)));
      var accepted := IsPrime(x);
      if accepted {
        return Some(x);
      }
    }
    r := None;
  }

  function Candidate(draw: nat, bits: nat): (x: nat)
    requires bits > 0
  {
    Or(Or(draw, Pow2(bits - 1)), 3)
  }

  /** Digit i of the binary expansion. */
  function Bit(x: nat, i: nat): bool
    decreases i
  {
    if i == 0 then x % 2 == 1 else Bit(x / 2, i - 1)
  }

  lemma {:induction false} BitIsDigit(x: nat, i: nat)
    ensures Pow(2, i) > 0
    ensures Bit(x, i) <==> x / Pow(2, i) % 2 == 1
  {
    if i > 0 {
      BitIsDigit(x / 2, i - 1);
      PowNext(2, i);
      DivTwice(x, 2, Pow(2, i - 1));
    }
  }

  lemma {:induction false} OrBit(a: nat, b: nat, i: nat)
    ensures Bit(Or(a, b), i) <==> Bit(a, i) || Bit(b, i)
    decreases i
  {
    assert Or(a, b) / 2 == Or(a / 2, b / 2);
    if i > 0 {
      OrBit(a / 2, b / 2, i - 1);
    }
  }

  lemma {:induction false} PowerBit(k: nat, i: nat)
    ensures Bit(Pow2(k), i) <==> i == k
    decreases i
  {
    if k > 0 {
      assert Pow2(k) / 2 == Pow2(k - 1) && Pow2(k) % 2 == 0;
      if i > 0 {
        PowerBit(k - 1, i - 1);
      }
    } else if i > 0 {
      NoBit(i - 1);
    }
  }

  lemma {:induction false} NoBit(i: nat)
    ensures !Bit(0, i)
  {
    if i > 0 {
      NoBit(i - 1);
    }
  }

  /** The candidate of a draw has the two lowest and the highest of the requested bits set; the others are those of
      the draw. */
  lemma CandidateBits(draw: nat, bits: nat, i: nat)
    requires bits > 0
    ensures Pow(2, i) > 0
    ensures Candidate(draw, bits) / Pow(2, i) % 2 == 1 <==>
            i == 0 || i == 1 || i == bits - 1 || draw / Pow(2, i) % 2 == 1
  {
    hide Or, Pow, Pow2, Bit;
    BitIsDigit(Candidate(draw, bits), i);
    BitIsDigit(draw, i);
    OrBit(Or(draw, Pow2(bits - 1)), 3, i);
    OrBit(draw, Pow2(bits - 1), i);
    PowerBit(bits - 1, i);
    ThreeBits(i);
  }

  lemma ThreeBits(i: nat)
    ensures Bit(3, i) <==> i < 2
  {
    if i > 1 {
      NoBit(i - 2);
    }
  }
}
