/**
 The floor-division Lagrange oracle of r3ticket and its inverter. At the query
 points the solver uses, every floor division is exact up to a constant, so the
 oracle is an integer polynomial whose coefficients balanced digits read off.
 */
module Lagrange {
  import opened ModArith
  import opened Polynomials
  import opened Primes

  /** Python's // rounds toward minus infinity for either sign of the divisor. */
  function FloorDiv(a: int, b: int): int
    requires b != 0
  {
    if b > 0 then a / b else (-a) / (-b)
  }

  /** Product of (index - j) // (i - j) over j < m, j != i. */
  ghost function PartUpTo(i: nat, m: nat, index: int): int {
    if m == 0 then 1
    else if m - 1 == i then PartUpTo(i, m - 1, index)
    else PartUpTo(i, m - 1, index) * FloorDiv(index - (m - 1), i - (m - 1))
  }

  /** What the oracle answers once the first m numbers are added up. */
  ghost function OracleUpTo(nums: seq<int>, m: nat, index: int): int
    requires m <= |nums|
  {
    if m == 0 then 0 else OracleUpTo(nums, m - 1, index) + PartUpTo(m - 1, |nums|, index) * nums[m - 1]
  }

  ghost function Oracle(nums: seq<int>, index: int): int {
    if index > |nums| - 1 then 0 else OracleUpTo(nums, |nums|, index)
  }

  /** The quotient is rounded down, whatever the signs. */
  lemma FloorDivIsFloor(a: int, b: int)
    requires b != 0
    ensures b > 0 ==> FloorDiv(a, b) * b <= a < FloorDiv(a, b) * b + b
    ensures b < 0 ==> FloorDiv(a, b) * b >= a > FloorDiv(a, b) * b + b
  {
    var d, n := if b > 0 then b else -b, if b > 0 then a else -a;
    assert n == (n / d) * d + n % d;
    assert (n / d) * (-d) == -((n / d) * d);
  }

  /** At one of the nodes 0 .. n - 1 every part but its own contains a factor 0, and its own has only factors 1. */
  lemma {:induction false} PartAtNode(i: nat, m: nat, k: nat)
    ensures PartUpTo(i, m, k) == if i == k then 1 else if k < m then 0 else PartUpTo(i, m, k)
  {
    if m > 0 {
      PartAtNode(i, m - 1, k);
      if i == k && m - 1 != i {
        NodeFactor(k - (m - 1));
      } else if i != k && k < m && m - 1 != i {
        if k == m - 1 {
          ZeroFactor(i - k);
          MulComm(PartUpTo(i, k, k), 0);
        } else {
          MulComm(0, FloorDiv(k - (m - 1), i - (m - 1)));
        }
      }
    }
  }

  lemma NodeFactor(d: int)
    requires d != 0
    ensures FloorDiv(d, d) == 1
  {
  }

  lemma ZeroFactor(d: int)
    requires d != 0
    ensures FloorDiv(0, d) == 0
  {
  }

  lemma {:induction false} OracleAtNode(nums: seq<int>, m: nat, k: nat)
    requires m <= |nums| && k < |nums|
    ensures OracleUpTo(nums, m, k) == if k < m then nums[k] else 0
  {
    hide PartUpTo;
    if m > 0 {
      OracleAtNode(nums, m - 1, k);
      PartAtNode(m - 1, |nums|, k);
      MulComm(0, nums[m - 1]);
    }
  }

  /** Asked for a place of the list the oracle answers with the number there; beyond the list it answers 0. */
  lemma OracleInterpolates(nums: seq<int>, index: int)
    ensures 0 <= index < |nums| ==> Oracle(nums, index) == nums[index]
    ensures index >= |nums| ==> Oracle(nums, index) == 0
  {
    if 0 <= index < |nums| {
      OracleAtNode(nums, |nums|, index);
    }
  }

  method GetNum(nums: seq<int>, index: int) returns (result: int)
    ensures result == Oracle(nums, index)
    ensures 0 <= index < |nums| ==> result == nums[index]
    ensures index >= |nums| ==> result == 0
  {
    OracleInterpolates(nums, index);
    if index > |nums| - 1 {
      return 0;
    }
    result := 0;
    for i := 0 to |nums|
      invariant result == OracleUpTo(nums, i, index)
    {
      var part := 1;
      for j := 0 to |nums|
        invariant part == PartUpTo(i, j, index)
      {
        if j != i {
          part := part * FloorDiv(index - j, i - j);
        }
      }
      result := result + part * nums[i];
    }
  }

  // ---------------------------------------------------------------------
  // Floor divisions become linear
  // ---------------------------------------------------------------------

  /** q is a positive multiple of lcm(1, .., n - 1). */
  ghost predicate Clears(q: int, n: nat) {
    q > 0 && forall d {:trigger q % d} :: 1 <= d < n ==> q % d == 0
  }

  function Distance(i: nat, j: nat): nat {
    if j < i then i - j else j - i
  }

  /** The constant b of the linear form that build_matrix_mod uses for factor (i, j). */
  function Offset(i: nat, j: nat): int
    requires i != j
  {
    var d := Distance(i, j);
    if j < i then -((j + d - 1) / d) else j / d
  }

  /** The sign of q in that form. */
  function Sign(i: nat, j: nat): int {
    if j < i then -1 else 1
  }

  lemma FactorLinear(q: int, n: nat, i: nat, j: nat)
    requires Clears(q, n) && i < n && j < n && i != j
    ensures FloorDiv(-q - j, i - j) == Sign(i, j) * (q / Distance(i, j)) + Offset(i, j)
    ensures Distance(i, j) * FloorDiv(-q - j, i - j) == Sign(i, j) * q + Distance(i, j) * Offset(i, j)
  {
    var d := Distance(i, j);
    var t := q / d;
    ClearsExactly(q, n, d);
    if j < i {
      FloorBelow(t, j, d);
      SignedShare(-1, t, Offset(i, j), d);
    } else {
      FloorAbove(t, j, d);
      SignedShare(1, t, Offset(i, j), d);
    }
  }

  lemma ClearsExactly(q: int, n: nat, d: int)
    requires Clears(q, n) && 1 <= d < n
    ensures q == (q / d) * d
  {
    assert q % d == 0;
  }

  lemma SignedShare(sign: int, t: int, offset: int, d: int)
    requires sign == 1 || sign == -1
    ensures d * (sign * t + offset) == sign * (t * d) + d * offset
  {
    MulDistributes(sign * t, offset, d);
    MulAssoc(sign, t, d);
    MulComm(d, sign * t);
  }

  lemma FloorBelow(t: int, j: nat, d: int)
    requires d > 0
    ensures FloorDiv(-(t * d) - j, d) == -t - (j + d - 1) / d
  {
    CeilingAsFloor(t, j, d);
  }

  lemma FloorAbove(t: int, j: nat, d: int)
    requires d > 0
    ensures FloorDiv(-(t * d) - j, -d) == t + j / d
  {
    DivShift(t, j, d);
  }

  lemma DivShift(t: int, j: int, d: int)
    requires d > 0
    ensures (t * d + j) / d == t + j / d
  {
    assert j == (j / d) * d + j % d;
    MulDistributes(t, j / d, d);
    DivModUnique(t + j / d, j % d, d);
  }

  /** floor((-t*d - j) / d) is -t minus the ceiling of j / d. */
  lemma CeilingAsFloor(t: int, j: nat, d: int)
    requires d > 0
    ensures (-(t * d) - j) / d == -t - (j + d - 1) / d
  {
    var c, r := (j + d - 1) / d, (j + d - 1) % d;
    assert j + d - 1 == c * d + r;
    NegatedProduct(t, c, d);
    DivModUnique(-t - c, d - 1 - r, d);
  }

  lemma NegatedProduct(t: int, c: int, d: int)
    ensures (-t - c) * d == -(t * d) - c * d
  {
    MulDistributes(t, c, d);
  }

  // ---------------------------------------------------------------------
  // Each part is an integer polynomial over a factorial
  // ---------------------------------------------------------------------

  /** The distance times factor (i, j), as a polynomial in q. */
  ghost function IntFactor(i: nat, j: nat): (p: seq<int>)
    requires i != j
    ensures |p| == 2
  {
    [Distance(i, j) * Offset(i, j), Sign(i, j)]
  }

  ghost function PartPoly(i: nat, m: nat): (p: seq<int>)
    ensures |p| == if m > i then m else m + 1
  {
    if m == 0 then [1]
    else if m - 1 == i then PartPoly(i, m - 1)
    else Product(PartPoly(i, m - 1), IntFactor(i, m - 1))
  }

  ghost function Distances(i: nat, m: nat): int {
    if m == 0 then 1
    else if m - 1 == i then Distances(i, m - 1)
    else Distances(i, m - 1) * Distance(i, m - 1)
  }

  lemma EvalLinear(c: int, s: int, x: int)
    ensures Eval([c, s], x) == s * x + c
  {
    var p := [c, s];
    var f := Monomial(p, x);
    assert Sum(f, 2) == Sum(f, 1) + f(1) && Sum(f, 1) == Sum(f, 0) + f(0);
    assert Pow(x, 1) == x * Pow(x, 0);
  }

  /** What one more index j other than i adds to the three products. */
  lemma PartUnfolds(i: nat, j: nat, index: int)
    requires i != j
    ensures Distances(i, j + 1) == Distances(i, j) * Distance(i, j)
    ensures PartUpTo(i, j + 1, index) == PartUpTo(i, j, index) * FloorDiv(index - j, i - j)
    ensures PartPoly(i, j + 1) == Product(PartPoly(i, j), IntFactor(i, j))
  {
    hide Product, FloorDiv, IntFactor, Distance;
  }

  lemma PartSkips(i: nat, index: int)
    ensures Distances(i, i + 1) == Distances(i, i) && PartPoly(i, i + 1) == PartPoly(i, i)
    ensures PartUpTo(i, i + 1, index) == PartUpTo(i, i, index)
  {
  }

  lemma {:induction false} PartIsPolynomial(q: int, n: nat, i: nat, m: nat)
    requires Clears(q, n) && i < n && m <= n
    ensures Distances(i, m) * PartUpTo(i, m, -q) == Eval(PartPoly(i, m), q)
  {
    if m == 0 {
    } else {
      hide Eval, Clears, Distances, PartUpTo, PartPoly;
      PartIsPolynomial(q, n, i, m - 1);
      if m - 1 == i {
        PartSkips(i, -q);
      } else {
        PartNext(q, n, i, m);
      }
    }
  }

  lemma PartNext(q: int, n: nat, i: nat, m: nat)
    requires Clears(q, n) && i < n && 0 < m <= n && i != m - 1
    requires Distances(i, m - 1) * PartUpTo(i, m - 1, -q) == Eval(PartPoly(i, m - 1), q)
    ensures Distances(i, m) * PartUpTo(i, m, -q) == Eval(PartPoly(i, m), q)
  {
    hide Eval, Product, FloorDiv, IntFactor, Clears, Distance, Distances, PartUpTo, PartPoly;
    var j := m - 1;
    PartUnfolds(i, j, -q);
    PartStep(q, n, i, j, Distances(i, j), PartUpTo(i, j, -q), PartPoly(i, j));
  }

  /** One more factor, on both sides of the identity. */
  lemma PartStep(q: int, n: nat, i: nat, j: nat, d: int, part: int, p: seq<int>)
    requires Clears(q, n) && i < n && j < n && i != j
    requires d * part == Eval(p, q)
    ensures (d * Distance(i, j)) * (part * FloorDiv(-q - j, i - j)) == Eval(Product(p, IntFactor(i, j)), q)
  {
    hide Eval, Product, FloorDiv, IntFactor, Clears, Distance;
    FactorIsPolynomial(q, n, i, j);
    EvalProduct(p, IntFactor(i, j), q);
    MulInterchange(d, Distance(i, j), part, FloorDiv(-q - j, i - j));
  }

  lemma FactorIsPolynomial(q: int, n: nat, i: nat, j: nat)
    requires Clears(q, n) && i < n && j < n && i != j
    ensures Distance(i, j) * FloorDiv(-q - j, i - j) == Eval(IntFactor(i, j), q)
  {
    hide Eval, FloorDiv, Offset, Clears;
    FactorLinear(q, n, i, j);
    EvalLinear(Distance(i, j) * Offset(i, j), Sign(i, j), q);
  }

  function Fact(n: nat): int {
    if n == 0 then 1 else n * Fact(n - 1)
  }

  /** The distances below i run through i, i - 1, .., so they build the falling factorial. */
  lemma {:induction false} DistancesBelow(i: nat, m: nat)
    requires m <= i
    ensures Distances(i, m) * Fact(i - m) == Fact(i)
  {
    if m > 0 {
      DistancesBelow(i, m - 1);
      assert Distance(i, m - 1) == i - (m - 1);
      MulAssoc(Distances(i, m - 1), i - (m - 1), Fact(i - m));
    }
  }

  lemma {:induction false} DistancesAbove(i: nat, m: nat)
    requires m > i
    ensures Distances(i, m) == Fact(i) * Fact(m - 1 - i)
  {
    if m == i + 1 {
      DistancesBelow(i, i);
    } else {
      DistancesAbove(i, m - 1);
      assert Distance(i, m - 1) == m - 1 - i;
      MulShuffle(Fact(i), m - 1 - i, Fact(m - 2 - i));
      MulAssoc(Fact(i), Fact(m - 2 - i), m - 1 - i);
    }
  }

  lemma {:induction false} ChooseFactorials(n: nat, k: nat)
    requires k <= n
    ensures Choose(n, k) * (Fact(k) * Fact(n - k)) == Fact(n)
  {
    if k == 0 {
    } else if k == n {
      ChooseAll(n);
      assert Fact(0) == 1;
    } else {
      ChooseFactorials(n - 1, k - 1);
      ChooseFactorials(n - 1, k);
      PascalFactorials(Choose(n - 1, k - 1), Choose(n - 1, k), k, n - k, Fact(k - 1), Fact(n - k - 1), Fact(n - 1));
    }
  }

  /** (c + d) * k! * l! from c * (k-1)! * l! and d * k! * (l-1)!. */
  lemma PascalFactorials(c: int, d: int, k: int, l: int, fk: int, fl: int, f: int)
    requires c * (fk * (l * fl)) == f && d * ((k * fk) * fl) == f
    ensures (c + d) * ((k * fk) * (l * fl)) == (k + l) * f
  {
    var g := fk * fl;
    assert fk * (l * fl) == l * g && (k * fk) * fl == k * g && (k * fk) * (l * fl) == k * (l * g) by {
      MulShuffle(fk, l, fl);
      MulAssoc(l, fk, fl);
      MulAssoc(k, fk, fl);
      MulAssoc(k, fk, l * fl);
    }
    MulShuffle(c, k, l * g);
    MulShuffle(d, l, k * g);
    MulAssoc(k, l, g);
    MulAssoc(l, k, g);
    MulComm(k, l);
    MulDistributes(c, d, k * (l * g));
    MulDistributes(k, l, f);
  }

  /** (n-1)! is a multiple of every denominator product. */
  lemma FactorialClears(n: nat, i: nat)
    requires i < n
    ensures Choose(n - 1, i) * Distances(i, n) == Fact(n - 1)
  {
    DistancesAbove(i, n);
    ChooseFactorials(n - 1, i);
  }

  // ---------------------------------------------------------------------
  // The whole oracle is an integer polynomial over (n-1)!
  // ---------------------------------------------------------------------

  ghost function Times(c: int, p: seq<int>): (r: seq<int>)
    ensures |r| == |p|
    ensures forall k {:trigger r[k]} :: 0 <= k < |p| ==> r[k] == c * p[k]
  {
    seq(|p|, k requires 0 <= k < |p| => c * p[k])
  }

  lemma EvalTimes(c: int, p: seq<int>, x: int)
    ensures Eval(Times(c, p), x) == c * Eval(p, x)
  {
    hide Pow, Sum;
    forall k | 0 <= k < |p|
      ensures Monomial(Times(c, p), x)(k) == c * Monomial(p, x)(k)
    {
      MulAssoc(c, p[k], Pow(x, k));
    }
    SumScale(c, Monomial(p, x), Monomial(Times(c, p), x), |p|);
  }

  /** Column i of the solver's matrix: the polynomial that multiplies nums[i] in (n-1)! times the oracle. */
  ghost function Column(n: nat, i: nat): (p: seq<int>)
    requires i < n
    ensures |p| == n
  {
    Times(Choose(n - 1, i), PartPoly(i, n))
  }

  ghost function CoefficientsUpTo(nums: seq<int>, m: nat): (p: seq<int>)
    requires m <= |nums|
    ensures |p| == |nums|
  {
    if m == 0 then seq(|nums|, _ => 0)
    else Plus(CoefficientsUpTo(nums, m - 1), Times(nums[m - 1], Column(|nums|, m - 1)))
  }

  ghost function Coefficients(nums: seq<int>): (p: seq<int>)
    ensures |p| == |nums|
  {
    CoefficientsUpTo(nums, |nums|)
  }

  lemma EvalZeros(n: nat, x: int)
    ensures Eval(seq(n, _ => 0), x) == 0
  {
    hide Pow, Sum;
    var p := seq(n, _ => 0);
    forall k | 0 <= k < n ensures Monomial(p, x)(k) == 0 {
      MulComm(0, Pow(x, k));
    }
    SumZero(Monomial(p, x), n);
  }

  lemma ColumnValue(q: int, n: nat, i: nat)
    requires Clears(q, n) && i < n
    ensures Eval(Column(n, i), q) == Fact(n - 1) * PartUpTo(i, n, -q)
  {
    PartIsPolynomial(q, n, i, n);
    FactorialClears(n, i);
    hide Eval, PartPoly, PartUpTo, Distances, Fact, Choose, Clears;
    EvalTimes(Choose(n - 1, i), PartPoly(i, n), q);
    MulAssoc(Choose(n - 1, i), Distances(i, n), PartUpTo(i, n, -q));
  }

  lemma {:induction false} OracleUpToIsPolynomial(nums: seq<int>, m: nat, q: int)
    requires Clears(q, |nums|) && m <= |nums|
    ensures Fact(|nums| - 1) * OracleUpTo(nums, m, -q) == Eval(CoefficientsUpTo(nums, m), q)
    requires nums != []
  {
    hide Eval, Fact, Clears, PartUpTo, Column, Plus, Times;
    if m == 0 {
      EvalZeros(|nums|, q);
      MulComm(Fact(|nums| - 1), 0);
    } else {
      OracleUpToIsPolynomial(nums, m - 1, q);
      OracleStep(nums, m - 1, q);
    }
  }

  lemma OracleStep(nums: seq<int>, i: nat, q: int)
    requires Clears(q, |nums|) && i < |nums|
    requires Fact(|nums| - 1) * OracleUpTo(nums, i, -q) == Eval(CoefficientsUpTo(nums, i), q)
    ensures Fact(|nums| - 1) * OracleUpTo(nums, i + 1, -q) == Eval(CoefficientsUpTo(nums, i + 1), q)
  {
    hide Eval, PartUpTo, Fact, Clears, Column;
    var n, f := |nums|, Fact(|nums| - 1);
    var part := PartUpTo(i, n, -q);
    ColumnValue(q, n, i);
    EvalTimes(nums[i], Column(n, i), q);
    EvalPlus(CoefficientsUpTo(nums, i), Times(nums[i], Column(n, i)), q);
    MulDistributes(OracleUpTo(nums, i, -q), part * nums[i], f);
    MulAssoc(f, part, nums[i]);
    MulComm(f * part, nums[i]);
  }

  /** (n-1)! times the answer at -q is one fixed integer polynomial in q, for every admissible q. */
  lemma OracleIsPolynomial(nums: seq<int>, q: int)
    requires nums != [] && Clears(q, |nums|)
    ensures Fact(|nums| - 1) * Oracle(nums, -q) == Eval(Coefficients(nums), q)
  {
    OracleUpToIsPolynomial(nums, |nums|, q);
  }

  // ---------------------------------------------------------------------
  // Balanced digits
  // ---------------------------------------------------------------------

  datatype Result = Ok(digits: seq<int>) | DoesNotTerminate

  /** The digits balanced_digits can produce. */
  predicate IsBalanced(r: int, base: int)
    requires base > 0
  {
    base / 2 - base < r <= base / 2
  }

  function BalancedDigit(z: int, base: int): (r: int)
    requires base > 0
    ensures IsBalanced(r, base)
  {
    var r := z % base;
    if r > base / 2 then r - base else r
  }

  ghost predicate AllBalanced(ds: seq<int>, base: int)
    requires base > 0
  {
    forall k :: 0 <= k < |ds| ==> IsBalanced(ds[k], base)
  }

  lemma BalancedDigitDivides(z: int, base: int)
    requires base > 0
    ensures z == BalancedDigit(z, base) + base * ((z - BalancedDigit(z, base)) / base)
  {
    var r := BalancedDigit(z, base);
    var k := z / base;
    assert z == k * base + z % base;
    var t := if r == z % base then k else k + 1;
    MulDistributes(k, 1, base);
    assert z - r == t * base;
    DivModUnique(t, 0, base);
    MulComm(t, base);
  }

  /** A balanced remainder is the only one. */
  lemma BalancedDigitUnique(z: int, base: int, r: int, t: int)
    requires base > 0 && IsBalanced(r, base) && z == r + base * t
    ensures BalancedDigit(z, base) == r && (z - r) / base == t
  {
    MulComm(base, t);
    if r >= 0 {
      DivModUnique(t, r, base);
    } else {
      MulDistributes(t, -1, base);
      DivModUnique(t - 1, r + base, base);
    }
    DivModUnique(t, 0, base);
  }

  method BalancedDigits(z0: int, base: int, n: nat) returns (r: Result)
    requires base > 0
    ensures r.Ok? ==> |r.digits| == n && AllBalanced(r.digits, base) && Eval(r.digits, base) == z0
    ensures r.DoesNotTerminate? ==> forall ds :: |ds| == n && AllBalanced(ds, base) ==> Eval(ds, base) != z0
  {
    hide Eval, Total;
    var z := z0;
    var digits: seq<int> := [];
    TotalNil(z, base);
    for i := 0 to n
      invariant |digits| == i && AllBalanced(digits, base)
      invariant Total(digits, z, base) == z0
    {
      var d := BalancedDigit(z, base);
      var rest := (z - d) / base;
      TotalSnoc(digits, d, rest, z, base);
      digits := digits + [d];
      z := rest;
    }
    if z != 0 {
      OnlyExpansion(digits, z, base);
      return DoesNotTerminate;
    }
    TotalNothingLeft(digits, base);
    r := Ok(digits);
  }

  lemma TotalSnoc(ds: seq<int>, d: int, rest: int, left: int, base: int)
    requires base > 0 && d == BalancedDigit(left, base) && rest == (left - d) / base
    ensures Total(ds + [d], rest, base) == Total(ds, left, base)
  {
    BalancedDigitDivides(left, base);
    EvalSnoc(ds, d, base);
    PowNext(base, |ds| + 1);
    hide Eval, Pow, BalancedDigit;
    var w := Pow(base, |ds|);
    MulComm(base, w);
    MulAssoc(w, base, rest);
    MulDistributes(d, base * rest, w);
    MulComm(d, w);
  }

  lemma TotalNothingLeft(ds: seq<int>, base: int)
    ensures Total(ds, 0, base) == Eval(ds, base)
  {
    MulComm(Pow(base, |ds|), 0);
  }

  /** Digits with something left over exclude every expansion of the same length. */
  lemma OnlyExpansion(digits: seq<int>, z: int, base: int)
    requires base > 0 && z != 0 && AllBalanced(digits, base)
    ensures forall ds :: |ds| == |digits| && AllBalanced(ds, base) ==> Eval(ds, base) != Total(digits, z, base)
  {
    hide Eval, Total;
    forall ds | |ds| == |digits| && AllBalanced(ds, base)
      ensures Eval(ds, base) != Total(digits, z, base)
    {
      TotalNothingLeft(ds, base);
      if Eval(ds, base) == Total(digits, z, base) {
        BalancedUnique(digits, z, ds, 0, base);
      }
    }
  }

  lemma EvalSnoc(p: seq<int>, d: int, x: int)
    ensures Eval(p + [d], x) == Eval(p, x) + d * Pow(x, |p|)
  {
    hide Pow;
    SumExt(Monomial(p + [d], x), Monomial(p, x), |p|);
  }

  /** The number that the digits and what is left over after them stand for. */
  ghost function Total(ds: seq<int>, left: int, base: int): int {
    Eval(ds, base) + Pow(base, |ds|) * left
  }

  lemma TotalCons(ds: seq<int>, left: int, base: int)
    requires ds != []
    ensures Total(ds, left, base) == ds[0] + base * Total(ds[1..], left, base)
  {
    var rest := ds[1..];
    assert ds == [ds[0]] + rest;
    EvalCons(ds[0], rest, base);
    PowNext(base, |ds|);
    hide Eval, Pow;
    MulAssoc(base, Pow(base, |rest|), left);
    MulDistributes(Eval(rest, base), Pow(base, |rest|) * left, base);
  }

  lemma TotalNil(left: int, base: int)
    ensures Total([], left, base) == left
  {
    EvalNil(base);
  }

  /** Balanced expansions of one number agree digit by digit, and so do what is left over. */
  lemma {:induction false} BalancedUnique(ds: seq<int>, y: int, es: seq<int>, z: int, base: int)
    requires base > 0 && |ds| == |es| && AllBalanced(ds, base) && AllBalanced(es, base)
    requires Total(ds, y, base) == Total(es, z, base)
    ensures ds == es && y == z
    decreases |ds|
  {
    hide Total;
    if ds == [] {
      TotalNil(y, base);
      TotalNil(z, base);
    } else {
      TotalCons(ds, y, base);
      TotalCons(es, z, base);
      BalancedDigitUnique(Total(ds, y, base), base, ds[0], Total(ds[1..], y, base));
      BalancedDigitUnique(Total(es, z, base), base, es[0], Total(es[1..], z, base));
      BalancedUnique(ds[1..], y, es[1..], z, base);
      assert ds == [ds[0]] + ds[1..] && es == [es[0]] + es[1..];
    }
  }

  // ---------------------------------------------------------------------
  // Recovering the coefficients from one answer
  // ---------------------------------------------------------------------

  /** One query at -q gives back every coefficient, exactly when each of them is a balanced digit for q. */
  method RecoverCoefficients(nums: seq<int>, q: int) returns (r: Result)
    requires nums != [] && Clears(q, |nums|)
    ensures r == Ok(Coefficients(nums)) <==> AllBalanced(Coefficients(nums), q)
  {
    var answer := GetNum(nums, -q);
    r := BalancedDigits(Fact(|nums| - 1) * answer, q, |nums|);
    OracleIsPolynomial(nums, q);
    if r.Ok? && AllBalanced(Coefficients(nums), q) {
      hide Eval, Pow, Total;
      TotalNothingLeft(r.digits, q);
      TotalNothingLeft(Coefficients(nums), q);
      BalancedUnique(r.digits, 0, Coefficients(nums), 0, q);
    }
  }
}
