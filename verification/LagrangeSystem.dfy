/**
 The linear system of r3ticket's solver: the columns of build_matrix_mod over a
 prime field, and the fact that the oracle's numbers solve it when its right-hand
 side is the recovered coefficients.
 */
module LagrangeSystem {
  import opened ModArith
  import opened Polynomials
  import opened Primes
  import opened Lagrange

  /** inverse[d] is the field's 1 / d, for every distance that occurs. */
  ghost predicate Inverts(inverse: seq<int>, n: nat, p: int)
    requires p > 1
  {
    |inverse| == n && forall d :: 1 <= d < n ==> Cong(inverse[d] * d, 1, p)
  }

  // ---------------------------------------------------------------------
  // Multiplying by a linear factor
  // ---------------------------------------------------------------------

  lemma LinearProduct(a: seq<int>, c0: int, c1: int, k: nat)
    requires a != [] && k <= |a|
    ensures Product(a, [c0, c1])[k] == At(a, k) * c0 + At(a, k - 1) * c1
  {
    hide Sum;
    var b := [c0, c1];
    var f := (i: int) => if i == k then At(a, k) * c0 else 0;
    var g := (i: int) => if i == k - 1 then At(a, k - 1) * c1 else 0;
    forall i | 0 <= i < |a|
      ensures ProductTerm(a, b, k)(i) == f(i) + g(i)
    {
      LinearTerm(a, c0, c1, k, i);
    }
    SumAdd(f, g, ProductTerm(a, b, k), |a|);
    if k < |a| {
      SumSingle(f, |a|, k);
    } else {
      SumZero(f, |a|);
    }
    if k > 0 {
      SumSingle(g, |a|, k - 1);
    } else {
      SumZero(g, |a|);
    }
    assert Product(a, b)[k] == ProductAt(a, b, k);
  }

  lemma LinearTerm(a: seq<int>, c0: int, c1: int, k: nat, i: nat)
    requires i < |a|
    ensures At(a, i) * At([c0, c1], k - i)
            == (if i == k then At(a, k) * c0 else 0) + (if i == k - 1 then At(a, k - 1) * c1 else 0)
  {
    if i != k && i != k - 1 {
      MulComm(At(a, i), 0);
    }
  }

  // ---------------------------------------------------------------------
  // One column
  // ---------------------------------------------------------------------

  /** poly, scaled by the product of the distances so far, is the integer polynomial so far. */
  ghost predicate Follows(poly: seq<int>, n: nat, i: nat, j: nat, p: int)
    requires p > 1
  {
    && |poly| == |PartPoly(i, j)|
    && forall k :: 0 <= k < |poly| ==> Cong(Distances(i, j) * poly[k], PartPoly(i, j)[k], p)
  }

  /** (s * d) * (x * b + y * a) against u * (d * b) + v * c, when s * x = u, s * y = v and d * a = c. */
  lemma FactorStep(s: int, d: int, x: int, y: int, a: int, b: int, u: int, v: int, c: int, p: int)
    requires p > 1 && Cong(s * x, u, p) && Cong(s * y, v, p) && Cong(d * a, c, p)
    ensures Cong((s * d) * (x * b + y * a), u * (d * b) + v * c, p)
  {
    hide Cong;
    MulDistributes(x * b, y * a, s * d);
    MulInterchange(s, d, x, b);
    MulInterchange(s, d, y, a);
    MulComm(s * d, x * b + y * a);
    CongMulLeft(d * b, s * x, u, p);
    CongMul(s * y, v, d * a, c, p);
    CongAdd((s * x) * (d * b), u * (d * b), (s * y) * (d * a), v * c, p);
  }

  lemma ColumnStep(poly: seq<int>, next: seq<int>, n: nat, i: nat, j: nat, p: int, a: int, k: nat)
    requires p > 1 && i < n && j < n && i != j && Follows(poly, n, i, j, p)
    requires Cong(Distance(i, j) * a, Sign(i, j), p)
    requires k <= |poly| == |next| - 1
    requires next[k] == (At(poly, k) * Offset(i, j) + At(poly, k - 1) * a) % p
    ensures Cong(Distances(i, j + 1) * next[k], PartPoly(i, j + 1)[k], p)
  {
    hide Product, Distance, Offset, Sign, Cong, PartPoly, Distances, At;
    var s, d := Distances(i, j), Distance(i, j);
    var part := PartPoly(i, j);
    PartUnfolds(i, j, 0);
    PartAt(poly, n, i, j, p, k);
    PartAt(poly, n, i, j, p, k - 1);
    var sum := At(poly, k) * Offset(i, j) + At(poly, k - 1) * a;
    FactorStep(s, d, At(poly, k), At(poly, k - 1), a, Offset(i, j), At(part, k), At(part, k - 1), Sign(i, j), p);
    CongSelfMod(sum, p);
    CongMulLeft(s * d, next[k], sum, p);
    LinearProduct(part, d * Offset(i, j), Sign(i, j), k);
    CongTrans((s * d) * next[k], (s * d) * sum, PartPoly(i, j + 1)[k], p);
  }

  lemma PartAt(poly: seq<int>, n: nat, i: nat, j: nat, p: int, k: int)
    requires p > 1 && Follows(poly, n, i, j, p)
    ensures Cong(Distances(i, j) * At(poly, k), At(PartPoly(i, j), k), p)
  {
    hide Distances, PartPoly;
    if !(0 <= k < |poly|) {
      MulComm(Distances(i, j), 0);
    }
  }

  /** Column i of the matrix: the product of the linear factors a * q + b over the field, times (n-1)!. */
  method MatrixColumn(n: nat, i: nat, p: int, inverse: seq<int>) returns (column: seq<int>)
    requires p > 1 && i < n && Inverts(inverse, n, p)
    ensures |column| == n
    ensures forall k :: 0 <= k < n ==> 0 <= column[k] < p && Cong(column[k], Column(n, i)[k], p)
  {
    hide Product, Cong, Offset, Distance, Sign;
    var poly := [1 % p];
    FollowsStart(n, i, p);
    for j := 0 to n
      invariant Follows(poly, n, i, j, p)
    {
      if i != j {
        var dist := Distance(i, j);
        DistanceRange(n, i, j);
        var a := Sign(i, j) * inverse[dist];
        SlopeCong(inverse[dist], dist, Sign(i, j), p);
        ghost var before := poly;
        var next: seq<int> := [];
        for k := 0 to |poly| + 1
          invariant |next| == k
          invariant forall l :: 0 <= l < k ==>
                      next[l] == (At(poly, l) * Offset(i, j) + At(poly, l - 1) * a) % p
        {
          next := next + [(At(poly, k) * Offset(i, j) + At(poly, k - 1) * a) % p];
        }
        forall k | 0 <= k < |next|
          ensures Cong(Distances(i, j + 1) * next[k], PartPoly(i, j + 1)[k], p)
        {
          ColumnStep(poly, next, n, i, j, p, a, k);
        }
        poly := next;
      }
    }
    column := Scaled(Fact(n - 1), poly, p);
    forall k | 0 <= k < n
      ensures Cong(column[k], Column(n, i)[k], p)
    {
      ColumnEnd(poly, column, n, i, p, k);
    }
  }

  method Scaled(c: int, poly: seq<int>, p: int) returns (r: seq<int>)
    requires p > 1
    ensures |r| == |poly|
    ensures forall k :: 0 <= k < |poly| ==> 0 <= r[k] < p && r[k] == (c * poly[k]) % p
  {
    r := [];
    for k := 0 to |poly|
      invariant |r| == k
      invariant forall l :: 0 <= l < k ==> 0 <= r[l] < p && r[l] == (c * poly[l]) % p
    {
      r := r + [(c * poly[k]) % p];
    }
  }

  lemma DistanceRange(n: nat, i: nat, j: nat)
    requires i < n && j < n && i != j
    ensures 1 <= Distance(i, j) < n
  {
  }

  lemma SlopeCong(inverse: int, d: int, sign: int, p: int)
    requires p > 1 && Cong(inverse * d, 1, p)
    ensures Cong(d * (sign * inverse), sign, p)
  {
    hide Cong;
    MulShuffle(d, sign, inverse);
    MulComm(d, inverse);
    CongMulLeft(sign, inverse * d, 1, p);
  }

  lemma FollowsStart(n: nat, i: nat, p: int)
    requires p > 1
    ensures Follows([1 % p], n, i, 0, p)
  {
    CongSelfMod(1, p);
  }

  lemma ColumnEnd(poly: seq<int>, column: seq<int>, n: nat, i: nat, p: int, k: nat)
    requires p > 1 && i < n && Follows(poly, n, i, n, p) && k < n == |column|
    requires column[k] == (Fact(n - 1) * poly[k]) % p
    ensures Cong(column[k], Column(n, i)[k], p)
  {
    hide Cong, PartPoly, Fact, Choose, Distances;
    var c, s := Choose(n - 1, i), Distances(i, n);
    FactorialClears(n, i);
    MulAssoc(c, s, poly[k]);
    CongSelfMod(Fact(n - 1) * poly[k], p);
    CongMulLeft(c, s * poly[k], PartPoly(i, n)[k], p);
    CongTrans(column[k], Fact(n - 1) * poly[k], Column(n, i)[k], p);
  }

  // ---------------------------------------------------------------------
  // The system
  // ---------------------------------------------------------------------

  ghost predicate IsColumn(column: seq<int>, n: nat, i: nat, p: int)
    requires p > 1 && i < n
  {
    |column| == n && forall k :: 0 <= k < n ==> Cong(column[k], Column(n, i)[k], p)
  }

  ghost predicate IsMatrix(columns: seq<seq<int>>, n: nat, p: int)
    requires p > 1
  {
    |columns| == n && forall i :: 0 <= i < n ==> |columns[i]| == n && IsColumn(columns[i], n, i, p)
  }

  method BuildMatrixMod(n: nat, p: int, inverse: seq<int>) returns (columns: seq<seq<int>>)
    requires p > 1 && Inverts(inverse, n, p)
    ensures IsMatrix(columns, n, p)
  {
    columns := [];
    for i := 0 to n
      invariant |columns| == i
      invariant forall l :: 0 <= l < i ==> |columns[l]| == n && IsColumn(columns[l], n, l, p)
    {
      var column := MatrixColumn(n, i, p, inverse);
      assert IsColumn(column, n, i, p);
      hide IsColumn;
      columns := columns + [column];
    }
  }

  /** Row k of the matrix, up to column m, times the numbers. */
  ghost function RowTimes(columns: seq<seq<int>>, nums: seq<int>, k: nat, m: nat): int
    requires m <= |columns| && m <= |nums| && forall l :: 0 <= l < m ==> k < |columns[l]|
  {
    if m == 0 then 0 else RowTimes(columns, nums, k, m - 1) + nums[m - 1] * columns[m - 1][k]
  }

  lemma {:induction false} RowCoefficients(columns: seq<seq<int>>, nums: seq<int>, p: int, k: nat, m: nat)
    requires p > 1 && IsMatrix(columns, |nums|, p) && k < |nums| && m <= |nums|
    ensures Cong(RowTimes(columns, nums, k, m), CoefficientsUpTo(nums, m)[k], p)
  {
    hide IsColumn, Cong, Column, Plus, Times;
    if m == 0 {
      CongRefl(0, p);
    } else {
      RowCoefficients(columns, nums, p, k, m - 1);
      RowStep(columns, nums, p, k, m);
    }
  }

  lemma RowStep(columns: seq<seq<int>>, nums: seq<int>, p: int, k: nat, m: nat)
    requires p > 1 && IsMatrix(columns, |nums|, p) && k < |nums| && 0 < m <= |nums|
    requires IsColumn(columns[m - 1], |nums|, m - 1, p)
    requires Cong(RowTimes(columns, nums, k, m - 1), CoefficientsUpTo(nums, m - 1)[k], p)
    ensures Cong(RowTimes(columns, nums, k, m), CoefficientsUpTo(nums, m)[k], p)
  {
    hide Cong, Column;
    var x := nums[m - 1];
    var cell := Column(|nums|, m - 1)[k];
    CongMulLeft(x, columns[m - 1][k], cell, p);
    CongAdd(RowTimes(columns, nums, k, m - 1), CoefficientsUpTo(nums, m - 1)[k], x * columns[m - 1][k], x * cell, p);
  }

  /** The numbers the oracle was built from solve the solver's system modulo every prime it tries. */
  lemma NumbersSolve(columns: seq<seq<int>>, nums: seq<int>, p: int, k: nat)
    requires p > 1 && IsMatrix(columns, |nums|, p) && k < |nums|
    ensures Cong(RowTimes(columns, nums, k, |nums|), Coefficients(nums)[k], p)
  {
    RowCoefficients(columns, nums, p, k, |nums|);
  }

  // ---------------------------------------------------------------------
  // When the numbers are the only solution
  // ---------------------------------------------------------------------

  ghost predicate Residues(xs: seq<int>, n: nat, p: int) {
    |xs| == n && forall i :: 0 <= i < n ==> 0 <= xs[i] < p
  }

  ghost predicate Solves(columns: seq<seq<int>>, xs: seq<int>, rhs: seq<int>, p: int)
    requires p > 1 && |columns| == |xs| == |rhs| && forall i :: 0 <= i < |columns| ==> |columns[i]| == |rhs|
  {
    forall k :: 0 <= k < |rhs| ==> SolvesRow(columns, xs, rhs, p, k)
  }

  ghost predicate SolvesRow(columns: seq<seq<int>>, xs: seq<int>, rhs: seq<int>, p: int, k: nat)
    requires p > 1 && |columns| == |xs| == |rhs| && forall i :: 0 <= i < |columns| ==> |columns[i]| == |rhs|
    requires k < |rhs|
  {
    Cong(RowTimes(columns, xs, k, |xs|), rhs[k], p)
  }

  function Zeros(n: nat): (z: seq<int>)
    ensures |z| == n && forall i :: 0 <= i < n ==> z[i] == 0
  {
    seq(n, _ => 0)
  }

  /** The matrix is invertible: only zero is mapped to zero. */
  ghost predicate TrivialKernel(columns: seq<seq<int>>, n: nat, p: int)
    requires p > 1 && |columns| == n && forall i :: 0 <= i < n ==> |columns[i]| == n
  {
    forall v :: Residues(v, n, p) && Solves(columns, v, Zeros(n), p) ==> v == Zeros(n)
  }

  /** x + s * y, entry by entry in the field. */
  function Combined(x: seq<int>, s: int, y: seq<int>, p: int): (z: seq<int>)
    requires p > 1 && |x| == |y|
    ensures |z| == |x| && forall i {:trigger z[i]} :: 0 <= i < |x| ==> 0 <= z[i] < p && z[i] == (x[i] + s * y[i]) % p
  {
    seq(|x|, i requires 0 <= i < |x| => (x[i] + s * y[i]) % p)
  }

  lemma {:induction false} RowCombined(columns: seq<seq<int>>, x: seq<int>, s: int, y: seq<int>, p: int, k: nat, m: nat)
    requires p > 1 && |x| == |y| && m <= |columns| && m <= |x|
    requires forall l :: 0 <= l < m ==> k < |columns[l]|
    ensures Cong(RowTimes(columns, Combined(x, s, y, p), k, m),
                 RowTimes(columns, x, k, m) + s * RowTimes(columns, y, k, m), p)
  {
    hide Cong, Combined;
    if m == 0 {
      MulComm(s, 0);
      CongRefl(0, p);
    } else {
      RowCombined(columns, x, s, y, p, k, m - 1);
      var c := columns[m - 1][k];
      var z := Combined(x, s, y, p)[m - 1];
      CongSelfMod(x[m - 1] + s * y[m - 1], p);
      CongMulLeft(c, z, x[m - 1] + s * y[m - 1], p);
      CombinedCell(c, x[m - 1], s, y[m - 1], z, RowTimes(columns, y, k, m - 1));
      CongAdd(RowTimes(columns, Combined(x, s, y, p), k, m - 1),
              RowTimes(columns, x, k, m - 1) + s * RowTimes(columns, y, k, m - 1),
              z * c, x[m - 1] * c + s * (y[m - 1] * c), p);
    }
  }

  lemma CombinedCell(c: int, x: int, s: int, y: int, z: int, rest: int)
    ensures c * (x + s * y) == x * c + s * (y * c) && c * z == z * c
    ensures s * (rest + y * c) == s * rest + s * (y * c)
  {
    MulDistributes(x, s * y, c);
    MulAssoc(s, y, c);
    MulComm(c, z);
    MulDistributes(rest, y * c, s);
  }

  lemma CombinedSolves(columns: seq<seq<int>>, x: seq<int>, s: int, y: seq<int>, a: seq<int>, b: seq<int>, c: seq<int>,
                       p: int)
    requires p > 1 && |columns| == |x| == |y| == |a| == |b| == |c|
    requires forall i :: 0 <= i < |columns| ==> |columns[i]| == |a|
    requires Solves(columns, x, a, p) && Solves(columns, y, b, p)
    requires forall k :: 0 <= k < |a| ==> c[k] == a[k] + s * b[k]
    ensures Solves(columns, Combined(x, s, y, p), c, p)
  {
    hide Cong, RowTimes, Combined;
    forall k | 0 <= k < |a|
      ensures SolvesRow(columns, Combined(x, s, y, p), c, p, k)
    {
      assert SolvesRow(columns, x, a, p, k) && SolvesRow(columns, y, b, p, k);
      var u, v := RowTimes(columns, x, k, |x|), RowTimes(columns, y, k, |x|);
      RowCombined(columns, x, s, y, p, k, |x|);
      CongScale(s, v, b[k], p);
      CongAdd(u, a[k], s * v, s * b[k], p);
      CongTrans(RowTimes(columns, Combined(x, s, y, p), k, |x|), u + s * v, c[k], p);
    }
  }

  /** The solver can only return the oracle's numbers exactly when the matrix is invertible modulo p. */
  lemma OnlySolutionIff(columns: seq<seq<int>>, nums: seq<int>, p: int)
    requires p > 1 && IsMatrix(columns, |nums|, p) && Residues(nums, |nums|, p)
    ensures Solves(columns, nums, Coefficients(nums), p)
    ensures (forall xs :: Residues(xs, |nums|, p) && Solves(columns, xs, Coefficients(nums), p) ==> xs == nums)
            <==> TrivialKernel(columns, |nums|, p)
  {
    var n, rhs := |nums|, Coefficients(nums);
    forall k | 0 <= k < n ensures SolvesRow(columns, nums, rhs, p, k) {
      NumbersSolve(columns, nums, p, k);
    }
    hide Cong, RowTimes, SolvesRow, Coefficients, Combined, Solves, IsColumn;
    if TrivialKernel(columns, n, p) {
      forall xs | Residues(xs, n, p) && Solves(columns, xs, rhs, p) ensures xs == nums {
        CombinedSolves(columns, xs, -1, nums, rhs, rhs, Zeros(n), p);
        assert Combined(xs, -1, nums, p) == Zeros(n);
        DifferenceZero(xs, nums, n, p);
      }
    }
    if forall xs :: Residues(xs, n, p) && Solves(columns, xs, rhs, p) ==> xs == nums {
      forall v | Residues(v, n, p) && Solves(columns, v, Zeros(n), p) ensures v == Zeros(n) {
        CombinedSolves(columns, nums, 1, v, rhs, Zeros(n), rhs, p);
        assert Combined(nums, 1, v, p) == nums;
        AdditionVanishes(nums, v, n, p);
      }
    }
  }

  lemma DifferenceZero(x: seq<int>, y: seq<int>, n: nat, p: int)
    requires p > 1 && Residues(x, n, p) && Residues(y, n, p) && Combined(x, -1, y, p) == Zeros(n)
    ensures x == y
  {
    hide Combined, Cong;
    forall i | 0 <= i < n ensures x[i] == y[i] {
      assert Combined(x, -1, y, p)[i] == 0;
      ZeroIffDivides(x[i] - y[i], p);
      CongRefl(y[i], p);
      CongAdd(x[i] - y[i], 0, y[i], y[i], p);
      CongCanonical(x[i], y[i], p);
    }
  }

  lemma AdditionVanishes(x: seq<int>, v: seq<int>, n: nat, p: int)
    requires p > 1 && Residues(x, n, p) && Residues(v, n, p) && Combined(x, 1, v, p) == x
    ensures v == Zeros(n)
  {
    hide Combined, Cong;
    forall i | 0 <= i < n ensures v[i] == 0 {
      assert Combined(x, 1, v, p)[i] == x[i];
      CongSelfMod(x[i] + v[i], p);
      CongRefl(x[i], p);
      CongSub(x[i], x[i] + v[i], x[i], x[i], p);
      CongSym(0, v[i], p);
      CongCanonical(v[i], 0, p);
    }
  }
}
