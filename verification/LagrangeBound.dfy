/**
 How large the recovered coefficients can get, and the size of q that makes
 every one of them a balanced digit. The query of r3ticket's solver, a multiple
 of lcm(1, .., 127) shifted by 1000 bits, is large enough for all 128 numbers
 of 16 bits.
 */
module LagrangeBound {
  import opened ModArith
  import opened Polynomials
  import opened Primes
  import opened Lagrange
  import opened LagrangeSystem

  function Abs(x: int): nat {
    if x < 0 then -x else x
  }

  predicate Small(x: int, b: int) {
    -b <= x <= b
  }

  ghost predicate Within(s: seq<int>, b: int) {
    forall k :: 0 <= k < |s| ==> Small(s[k], b)
  }

  // ---------------------------------------------------------------------
  // Products of linear factors
  // ---------------------------------------------------------------------

  lemma TermWithin(x: int, b: int, c: int)
    requires b >= 0 && Small(x, b)
    ensures Small(x * c, b * Abs(c))
  {
    MulMonotone(x, b, Abs(c));
    MulMonotone(-b, x, Abs(c));
    Negated(b, Abs(c));
    MulComm(x, c);
    if c < 0 {
      Negated(c, x);
      MulComm(x, -c);
    }
  }

  lemma Negated(x: int, y: int)
    ensures (-x) * y == -(x * y)
  {
  }

  /** A linear factor multiplies the bound by the sum of its two absolute coefficients. */
  lemma ProductWithin(a: seq<int>, c0: int, c1: int, b: int, c: int)
    requires b >= 0 && a != [] && Within(a, b) && Abs(c0) + Abs(c1) <= c
    ensures Within(Product(a, [c0, c1]), b * c)
  {
    hide Product, Abs;
    MulDistributes(Abs(c0), Abs(c1), b);
    MulMonotone(Abs(c0) + Abs(c1), c, b);
    MulComm(b, c);
    MulComm(b, Abs(c0) + Abs(c1));
    forall k | 0 <= k < |a| + 1
      ensures Small(Product(a, [c0, c1])[k], b * c)
    {
      LinearProduct(a, c0, c1, k);
      TermWithin(At(a, k), b, c0);
      TermWithin(At(a, k - 1), b, c1);
    }
  }

  lemma FactorWithin(n: nat, i: nat, j: nat)
    requires i < n && j < n && i != j
    ensures Abs(Distance(i, j) * Offset(i, j)) + Abs(Sign(i, j)) <= n
  {
    var d := Distance(i, j);
    if j < i {
      var c := (j + d - 1) / d;
      RoundedDown(j + d - 1, d);
      Negated(c, d);
      MulComm(d, -c);
      MulComm(d, c);
    } else {
      RoundedDown(j, d);
    }
  }

  lemma RoundedDown(x: nat, d: nat)
    requires d > 0
    ensures 0 <= d * (x / d) <= x
  {
    MulMonotone(0, x / d, d);
    MulComm(d, x / d);
    assert x == x / d * d + x % d;
  }

  function Factors(i: nat, m: nat): nat {
    if m > i then m - 1 else m
  }

  lemma {:induction false} PartWithin(n: nat, i: nat, m: nat)
    requires i < n && m <= n
    ensures Within(PartPoly(i, m), Pow(n, Factors(i, m)))
  {
    hide Pow, Product, IntFactor;
    if m == 0 {
      PowZero(n);
    } else {
      hide PartPoly, Within;
      PartWithin(n, i, m - 1);
      if m - 1 == i {
        PartSkips(i, 0);
      } else {
        PartWithinNext(n, i, m - 1);
      }
    }
  }

  lemma PartWithinNext(n: nat, i: nat, j: nat)
    requires i < n && j < n && i != j && Within(PartPoly(i, j), Pow(n, Factors(i, j)))
    ensures Within(PartPoly(i, j + 1), Pow(n, Factors(i, j + 1)))
  {
    var e := Factors(i, j);
    PowPositive(n, e);
    PowNext(n, e + 1);
    hide Product, PartPoly, Pow, Within, Abs, Distance, Offset, Sign;
    FactorWithin(n, i, j);
    PartUnfolds(i, j, 0);
    ProductWithin(PartPoly(i, j), Distance(i, j) * Offset(i, j), Sign(i, j), Pow(n, e), n);
    MulComm(n, Pow(n, e));
  }

  // ---------------------------------------------------------------------
  // Columns and their sum
  // ---------------------------------------------------------------------

  /** The largest coefficient that numbers of size at most m can give. */
  ghost function Reach(n: nat, m: nat): int
    requires n > 0
  {
    m * (Pow(2, n - 1) * Pow(n, n - 1))
  }

  /** The binomial coefficients of n - 1 below i. */
  ghost function ChooseSum(n: nat, i: nat): (s: nat)
    requires n > 0
  {
    if i == 0 then 0 else ChooseSum(n, i - 1) + Choose(n - 1, i - 1)
  }

  lemma {:induction false} ChooseSumIs(n: nat, i: nat)
    requires n > 0
    ensures ChooseSum(n, i) == Sum(BinomialTerm(n - 1, 1), i)
  {
    if i > 0 {
      ChooseSumIs(n, i - 1);
      PowOne(i - 1);
      SumNext(BinomialTerm(n - 1, 1), i - 1);
    }
  }

  lemma ChooseSumAll(n: nat)
    requires n > 0
    ensures ChooseSum(n, n) == Pow(2, n - 1)
  {
    ChooseSumIs(n, n);
    Binomial(n - 1, 1);
  }

  /** The bound of one column. */
  ghost function ColumnReach(n: nat, i: nat): int
    requires i < n
  {
    Choose(n - 1, i) * Pow(n, n - 1)
  }

  lemma ColumnWithin(n: nat, i: nat)
    requires i < n
    ensures Within(Column(n, i), ColumnReach(n, i))
  {
    PowPositive(n, n - 1);
    PartWithin(n, i, n);
    hide Within, PartPoly, Pow;
    NumberTimesWithin(Choose(n - 1, i), Choose(n - 1, i), PartPoly(i, n), Pow(n, n - 1));
  }

  /** What the first i columns can add up to, per unit of the numbers. */
  ghost function Share(n: nat, i: nat): int
    requires n > 0
  {
    ChooseSum(n, i) * Pow(n, n - 1)
  }

  lemma ShareNext(n: nat, i: nat)
    requires i < n
    ensures Share(n, i + 1) == Share(n, i) + ColumnReach(n, i) && ColumnReach(n, i) >= 0
  {
    PowPositive(n, n - 1);
    hide Choose, Pow;
    MulDistributes(ChooseSum(n, i), Choose(n - 1, i), Pow(n, n - 1));
    MulMonotone(0, Choose(n - 1, i), Pow(n, n - 1));
  }

  lemma {:induction false} CoefficientsUpToWithin(nums: seq<int>, m: nat, i: nat)
    requires nums != [] && i <= |nums| && Within(nums, m)
    ensures Within(CoefficientsUpTo(nums, i), m * Share(|nums|, i))
  {
    hide Pow, Choose, Column, Plus, Times;
    if i == 0 {
      MulComm(0, Pow(|nums|, |nums| - 1));
      MulComm(m, 0);
    } else {
      hide CoefficientsUpTo, Within, ChooseSum, Share;
      CoefficientsUpToWithin(nums, m, i - 1);
      ColumnAdds(nums, m, i - 1);
    }
  }

  lemma ColumnAdds(nums: seq<int>, m: nat, i: nat)
    requires i < |nums| && Within(nums, m)
    requires Within(CoefficientsUpTo(nums, i), m * Share(|nums|, i))
    ensures Within(CoefficientsUpTo(nums, i + 1), m * Share(|nums|, i + 1))
  {
    var n := |nums|;
    var column := Column(n, i);
    assert Small(nums[i], m);
    CoefficientsNext(nums, i);
    hide *;
    ColumnWithin(n, i);
    ShareNext(n, i);
    var cell := ColumnReach(n, i);
    MulDistributes(Share(n, i), cell, m);
    NumberTimesWithin(nums[i], m, column, cell);
    PlusWithin(CoefficientsUpTo(nums, i), Times(nums[i], column), m * Share(n, i), m * cell);
  }

  lemma CoefficientsNext(nums: seq<int>, i: nat)
    requires i < |nums|
    ensures CoefficientsUpTo(nums, i + 1) == Plus(CoefficientsUpTo(nums, i), Times(nums[i], Column(|nums|, i)))
  {
    hide Plus, Times, Column;
  }

  lemma PlusWithin(a: seq<int>, b: seq<int>, x: int, y: int)
    requires |a| == |b| && Within(a, x) && Within(b, y)
    ensures Within(Plus(a, b), x + y)
  {
  }

  lemma NumberTimesWithin(x: int, m: int, p: seq<int>, b: int)
    requires m >= 0 && Small(x, m) && Within(p, b)
    ensures Within(Times(x, p), m * b)
  {
    forall k | 0 <= k < |p| ensures Small(Times(x, p)[k], m * b) {
      CellWithin(x, m, p[k], b);
    }
  }

  lemma CellWithin(x: int, m: int, y: int, b: int)
    requires m >= 0 && Small(x, m) && Small(y, b)
    ensures Small(x * y, m * b)
  {
    TermWithin(x, m, y);
    MulMonotone(Abs(y), b, m);
    MulComm(m, b);
    MulComm(m, Abs(y));
  }

  lemma CoefficientsWithin(nums: seq<int>, m: nat)
    requires nums != [] && Within(nums, m)
    ensures Within(Coefficients(nums), Reach(|nums|, m))
  {
    CoefficientsUpToWithin(nums, m, |nums|);
    ChooseSumAll(|nums|);
  }

  /** A bound known before the query is sent: every coefficient is then a balanced digit for q. */
  lemma SizeSuffices(nums: seq<int>, m: nat, q: int)
    requires nums != [] && Within(nums, m) && q > 2 * Reach(|nums|, m) && q > 0
    ensures AllBalanced(Coefficients(nums), q)
  {
    CoefficientsWithin(nums, m);
    var c := Coefficients(nums);
    hide Reach, Coefficients;
    forall k | 0 <= k < |c| ensures IsBalanced(c[k], q) {
    }
  }

  // ---------------------------------------------------------------------
  // The solver's query
  // ---------------------------------------------------------------------

  const COUNT: nat := 128
  const LARGEST: nat := 0xFFFF
  const SHIFT: nat := 1000

  /** Coprime divisors multiply. */
  lemma CoprimeDivide(l: int, a: nat, b: nat, u: int, v: int)
    requires a > 0 && b > 0 && l % a == 0 && l % b == 0 && u * a + v * b == 1
    ensures a * b > 0 && l % (a * b) == 0
  {
    var x, y := l / a, l / b;
    assert l == x * a && l == y * b;
    MulMonotone(1, a, b);
    BezoutShare(l, x, a, y, b, u, v);
    DivModUnique(y * u + x * v, 0, a * b);
  }

  lemma BezoutShare(l: int, x: int, a: int, y: int, b: int, u: int, v: int)
    requires l == x * a && l == y * b && u * a + v * b == 1
    ensures l == (y * u + x * v) * (a * b)
  {
    MulDistributes(u * a, v * b, l);
    MulInterchange(y, b, u, a);
    MulInterchange(x, a, v, b);
    MulComm(a, b);
    MulDistributes(y * u, x * v, a * b);
  }

  lemma Cleared(l: int, n: nat, d: int)
    requires Clears(l, n) && 1 <= d < n
    ensures l % d == 0
  {
  }

  /** Five primes below 128 multiply to more than 2^34. */
  lemma LcmLarge(l: int)
    requires Clears(l, COUNT)
    ensures l > 0x4_0000_0000
  {
    Cleared(l, COUNT, 127);
    Cleared(l, COUNT, 113);
    Cleared(l, COUNT, 109);
    Cleared(l, COUNT, 107);
    Cleared(l, COUNT, 103);
    assert l > 0;
    hide Clears;
    CoprimeDivide(l, 127, 113, -8, 9);
    CoprimeDivide(l, 14351, 109, 53, -6978);
    CoprimeDivide(l, 1564259, 107, -37, 540912);
    CoprimeDivide(l, 167375713, 103, -13, 21125090);
    if l < 17239698439 {
      ModSmall(l, 17239698439);
    }
  }

  lemma ReachOfSolver()
    ensures Reach(COUNT, LARGEST) == LARGEST * (Pow(2, SHIFT) * 0x1_0000)
  {
    assert Pow(2, 7) == COUNT;
    assert Pow(2, 16) == 0x1_0000;
    PowPow(2, 7, COUNT - 1);
    PowAdd(2, COUNT - 1, 7 * (COUNT - 1));
    PowAdd(2, SHIFT, 16);
  }

  /** The shift by 1000 bits makes the query both admissible and large enough, whatever the numbers are. */
  lemma SolverQuery(nums: seq<int>, l: int)
    requires |nums| == COUNT && Clears(l, COUNT)
    requires forall i :: 0 <= i < COUNT ==> 0 <= nums[i] <= LARGEST
    ensures Clears(l * Pow(2, SHIFT), COUNT)
    ensures AllBalanced(Coefficients(nums), l * Pow(2, SHIFT))
  {
    var w := Pow(2, SHIFT);
    PowPositive(2, SHIFT);
    ReachOfSolver();
    LcmLarge(l);
    hide Pow, Reach, Coefficients;
    ClearsShifted(l, w, COUNT);
    MulShuffle(LARGEST, w, 0x1_0000);
    MulMonotone(0x4_0000_0000, l, w);
    SizeSuffices(nums, LARGEST, l * w);
  }

  lemma ClearsShifted(l: int, w: int, n: nat)
    requires Clears(l, n) && w > 0
    ensures Clears(l * w, n)
  {
    MulMonotone(1, l, w);
    forall d {:trigger (l * w) % d} | 1 <= d < n ensures (l * w) % d == 0 {
      ClearsExactly(l, n, d);
      MulShuffle(l / d, d, w);
      MulAssoc(l / d, w, d);
      DivModUnique((l / d) * w, 0, d);
    }
  }

  /** One query gives back all coefficients of all 128 numbers. */
  method SolverRecovers(nums: seq<int>, l: int) returns (r: Result)
    requires |nums| == COUNT && Clears(l, COUNT)
    requires forall i :: 0 <= i < COUNT ==> 0 <= nums[i] <= LARGEST
    ensures r == Ok(Coefficients(nums))
  {
    hide Pow, AllBalanced, Clears, Coefficients;
    SolverQuery(nums, l);
    r := RecoverCoefficients(nums, l * Pow(2, SHIFT));
  }

  /** recover_nums up to the field solver: the digits of the answer and the matrix for one prime. What a solver can
      return is exactly the numbers if and only if the matrix is invertible modulo p. */
  method RecoverNums(nums: seq<int>, l: int, p: int, inverse: seq<int>)
    returns (r: Result, columns: seq<seq<int>>)
    requires |nums| == COUNT && Clears(l, COUNT)
    requires forall i :: 0 <= i < COUNT ==> 0 <= nums[i] <= LARGEST
    requires p > LARGEST && Inverts(inverse, COUNT, p)
    ensures r == Ok(Coefficients(nums)) && IsMatrix(columns, COUNT, p)
    ensures Solves(columns, nums, r.digits, p)
    ensures (forall xs :: Residues(xs, COUNT, p) && Solves(columns, xs, r.digits, p) ==> xs == nums)
            <==> TrivialKernel(columns, COUNT, p)
  {
    hide Coefficients, Clears, Inverts, IsColumn, Solves, TrivialKernel;
    r := SolverRecovers(nums, l);
    columns := BuildMatrixMod(COUNT, p, inverse);
    OnlySolutionIff(columns, nums, p);
  }
}
