/** Integer polynomials as coefficient sequences, lowest degree first. */
module Polynomials {
  import opened ModArith

  ghost function Monomial(p: seq<int>, x: int): int -> int {
    j => At(p, j) * Pow(x, j)
  }

  ghost function Eval(p: seq<int>, x: int): int {
    Sum(Monomial(p, x), |p|)
  }

  /** The summands of coefficient c of a product. */
  ghost function ProductTerm(a: seq<int>, b: seq<int>, c: int): int -> int {
    i => At(a, i) * At(b, c - i)
  }

  /** Coefficient c of a * b: the sum over i of a[i] * b[c - i]. */
  ghost function ProductAt(a: seq<int>, b: seq<int>, c: int): int {
    Sum(ProductTerm(a, b, c), |a|)
  }

  ghost function ProductLength(a: seq<int>, b: seq<int>): nat {
    if a == [] || b == [] then 0 else |a| + |b| - 1
  }

  ghost function Product(a: seq<int>, b: seq<int>): (p: seq<int>)
    ensures |p| == ProductLength(a, b)
    ensures forall c {:trigger p[c]} :: 0 <= c < |p| ==> p[c] == ProductAt(a, b, c)
  {
    seq(ProductLength(a, b), c requires 0 <= c < ProductLength(a, b) => ProductAt(a, b, c))
  }

  ghost function Longer(a: seq<int>, b: seq<int>): nat {
    if |a| > |b| then |a| else |b|
  }

  ghost function Plus(a: seq<int>, b: seq<int>): (p: seq<int>)
    ensures |p| == Longer(a, b)
    ensures forall c {:trigger p[c]} :: 0 <= c < |p| ==> p[c] == At(a, c) + At(b, c)
  {
    seq(Longer(a, b), c requires 0 <= c < Longer(a, b) => At(a, c) + At(b, c))
  }

  // ---------------------------------------------------------------------
  // Evaluation is a ring homomorphism
  // ---------------------------------------------------------------------

  /** Summing beyond the last coefficient changes nothing. */
  lemma EvalPadded(p: seq<int>, x: int, n: nat)
    requires n >= |p|
    ensures Sum(Monomial(p, x), n) == Eval(p, x)
  {
    hide Pow, Sum;
    var tail := (i: int) => if i < 0 then 0 else Monomial(p, x)(|p| + i);
    SumSplit(Monomial(p, x), tail, |p|, n - |p|);
    SumZero(tail, n - |p|);
  }

  lemma EvalPlus(a: seq<int>, b: seq<int>, x: int)
    ensures Eval(Plus(a, b), x) == Eval(a, x) + Eval(b, x)
  {
    hide Pow, Sum;
    var n := Longer(a, b);
    EvalPadded(a, x, n);
    EvalPadded(b, x, n);
    forall i | 0 <= i < n
      ensures Monomial(Plus(a, b), x)(i) == Monomial(a, x)(i) + Monomial(b, x)(i)
    {
      MulDistributes(At(a, i), At(b, i), Pow(x, i));
    }
    SumAdd(Monomial(a, x), Monomial(b, x), Monomial(Plus(a, b), x), n);
  }

  lemma EvalNil(x: int)
    ensures Eval([], x) == 0 && Pow(x, 0) == 1
  {
  }

  lemma SumOfOne(f: int -> int)
    ensures Sum(f, 1) == f(0)
  {
    assert Sum(f, 0) == 0;
  }

  lemma EvalCons(c: int, p: seq<int>, x: int)
    ensures Eval([c] + p, x) == c + x * Eval(p, x)
  {
    hide Pow, Sum;
    var f := Monomial([c] + p, x);
    forall i | 0 <= i < |p|
      ensures Scaled(x, Monomial(p, x))(i) == f(1 + i)
    {
      PowNext(x, i + 1);
      MulShuffle(x, p[i], Pow(x, i));
      MulComm(x * Pow(x, i), p[i]);
    }
    SumSplit(f, Scaled(x, Monomial(p, x)), 1, |p|);
    SumScale(x, Monomial(p, x), Scaled(x, Monomial(p, x)), |p|);
    SumOfOne(f);
    PowNext(x, 1);
  }

  /** Summand (i, c) of the expanded product: a[i] * b[c-i] * x^c. */
  ghost function Expanded(a: seq<int>, b: seq<int>, x: int): (int, int) -> int {
    (i, c) => (At(a, i) * At(b, c - i)) * Pow(x, c)
  }

  ghost function Shifted(b: seq<int>, x: int, i: int): int -> int {
    c => At(b, c - i) * Pow(x, c)
  }

  /** Multiplying by x^i shifts the coefficients. */
  lemma ShiftedSum(b: seq<int>, x: int, i: nat, n: nat)
    requires i + |b| <= n
    ensures Sum(Shifted(b, x, i), n) == Pow(x, i) * Eval(b, x)
  {
    hide Pow, Sum;
    var f, c := Shifted(b, x, i), Pow(x, i);
    forall j | 0 <= j < |b|
      ensures f(i + j) == Scaled(c, Monomial(b, x))(j)
    {
      PowAdd(x, i, j);
      MulShuffle(b[j], Pow(x, j), c);
      MulShuffle(c, b[j], Pow(x, j));
      MulComm(c * Pow(x, j), b[j]);
    }
    forall j | 0 <= j < i ensures f(j) == 0 {
      MulComm(0, Pow(x, j));
    }
    SumZero(f, i);
    SumSplit(f, Scaled(c, Monomial(b, x)), i, |b|);
    SumScale(c, Monomial(b, x), Scaled(c, Monomial(b, x)), |b|);
    var tail := (j: int) => if j < 0 then 0 else f(i + |b| + j);
    SumSplit(f, tail, i + |b|, n - i - |b|);
    SumZero(tail, n - i - |b|);
  }

  lemma ExpandedRow(a: seq<int>, b: seq<int>, x: int, i: nat, n: nat)
    requires i < |a| && n == ProductLength(a, b) && b != []
    ensures Sum(Row(Expanded(a, b, x), i), n) == Eval(b, x) * Monomial(a, x)(i)
  {
    hide Pow, Sum;
    forall c | 0 <= c < n
      ensures Row(Expanded(a, b, x), i)(c) == a[i] * Shifted(b, x, i)(c)
    {
      MulAssoc(a[i], At(b, c - i), Pow(x, c));
    }
    SumScale(a[i], Shifted(b, x, i), Row(Expanded(a, b, x), i), n);
    ShiftedSum(b, x, i, n);
    MulAssoc(a[i], Pow(x, i), Eval(b, x));
    MulComm(a[i] * Pow(x, i), Eval(b, x));
  }

  lemma ExpandedCol(a: seq<int>, b: seq<int>, x: int, c: nat)
    requires c < ProductLength(a, b)
    ensures Sum(Col(Expanded(a, b, x), c), |a|) == Monomial(Product(a, b), x)(c)
  {
    hide Pow, Sum;
    forall i | 0 <= i < |a|
      ensures Col(Expanded(a, b, x), c)(i) == Pow(x, c) * ProductTerm(a, b, c)(i)
    {
      MulComm(At(a, i) * At(b, c - i), Pow(x, c));
    }
    SumScale(Pow(x, c), ProductTerm(a, b, c), Col(Expanded(a, b, x), c), |a|);
    MulComm(Pow(x, c), ProductAt(a, b, c));
    assert At(Product(a, b), c) == ProductAt(a, b, c);
  }

  lemma EvalProduct(a: seq<int>, b: seq<int>, x: int)
    ensures Eval(Product(a, b), x) == Eval(a, x) * Eval(b, x)
  {
    if a == [] || b == [] {
      MulComm(0, Eval(a, x) + Eval(b, x));
    } else {
      EvalProductNonEmpty(a, b, x);
    }
  }

  lemma EvalProductNonEmpty(a: seq<int>, b: seq<int>, x: int)
    requires a != [] && b != []
    ensures Eval(Product(a, b), x) == Eval(a, x) * Eval(b, x)
  {
    hide Pow, Sum;
    var n, g := ProductLength(a, b), Expanded(a, b, x);
    SumSwap(g, |a|, n);
    forall i | 0 <= i < |a|
      ensures RowSums(g, n)(i) == Eval(b, x) * Monomial(a, x)(i)
    {
      ExpandedRow(a, b, x, i, n);
    }
    SumScale(Eval(b, x), Monomial(a, x), RowSums(g, n), |a|);
    MulComm(Eval(a, x), Eval(b, x));
    forall c | 0 <= c < n
      ensures ColSums(g, |a|)(c) == Monomial(Product(a, b), x)(c)
    {
      ExpandedCol(a, b, x, c);
    }
    SumExt(ColSums(g, |a|), Monomial(Product(a, b), x), n);
  }

  // ---------------------------------------------------------------------
  // Reduction modulo x^n - 1
  // ---------------------------------------------------------------------

  ghost function FoldTerm(p: seq<int>, n: int, k: int): int -> int
    requires n > 0
  {
    j => if j % n == k then At(p, j) else 0
  }

  /** Coefficient k of p mod x^n - 1: every p[j] with j = k (mod n), added up. */
  ghost function Fold(p: seq<int>, n: nat): (t: seq<int>)
    requires n > 0
    ensures |t| == n
    ensures forall k {:trigger t[k]} :: 0 <= k < n ==> t[k] == Sum(FoldTerm(p, n, k), |p|)
  {
    seq(n, k requires 0 <= k < n => Sum(FoldTerm(p, n, k), |p|))
  }

  /** A polynomial that is short enough is its own reduction. */
  lemma FoldShort(p: seq<int>, n: nat, k: nat)
    requires |p| <= n && k < n
    ensures Fold(p, n)[k] == At(p, k)
  {
    hide Sum;
    forall j | 0 <= j < |p|
      ensures j % n == j
    {
      ModSmall(j, n);
    }
    if k < |p| {
      SumSingle(FoldTerm(p, n, k), |p|, k);
    } else {
      SumZero(FoldTerm(p, n, k), |p|);
    }
  }

  ghost function Spread(p: seq<int>, n: int, y: int): (int, int) -> int
    requires n > 0
  {
    (j, k) => (if j % n == k then At(p, j) else 0) * Pow(y, k)
  }

  ghost function Wrapped(p: seq<int>, n: int, y: int): int -> int
    requires n > 0
  {
    j => At(p, j) * Pow(y, j % n)
  }

  lemma EvalFoldExact(p: seq<int>, n: nat, y: int)
    requires n > 0
    ensures Eval(Fold(p, n), y) == Sum(Wrapped(p, n, y), |p|)
  {
    hide Pow, Sum;
    var g := Spread(p, n, y);
    SumSwap(g, |p|, n);
    forall j | 0 <= j < |p|
      ensures RowSums(g, n)(j) == Wrapped(p, n, y)(j)
    {
      SumSingle(Row(g, j), n, j % n);
    }
    SumExt(RowSums(g, n), Wrapped(p, n, y), |p|);
    forall k | 0 <= k < n
      ensures ColSums(g, |p|)(k) == Monomial(Fold(p, n), y)(k)
    {
      forall j | 0 <= j < |p|
        ensures Col(g, k)(j) == Pow(y, k) * FoldTerm(p, n, k)(j)
      {
        MulComm(FoldTerm(p, n, k)(j), Pow(y, k));
      }
      SumScale(Pow(y, k), FoldTerm(p, n, k), Col(g, k), |p|);
      MulComm(Pow(y, k), Fold(p, n)[k]);
    }
    SumExt(ColSums(g, |p|), Monomial(Fold(p, n), y), n);
  }

  /** Folding does not change the value at any point whose n-th power is one. */
  lemma EvalFold(p: seq<int>, n: nat, y: int, m: int)
    requires n > 0 && m > 0
    requires Cong(Pow(y, n), 1, m)
    ensures Cong(Eval(Fold(p, n), y), Eval(p, y), m)
  {
    hide Cong, Pow, Sum;
    EvalFoldExact(p, n, y);
    forall j | 0 <= j < |p|
      ensures Cong(Wrapped(p, n, y)(j), Monomial(p, y)(j), m)
    {
      PowMod(y, n, j, m);
      CongMulLeft(p[j], Pow(y, j % n), Pow(y, j), m);
    }
    SumCong(Wrapped(p, n, y), Monomial(p, y), |p|, m);
  }

  lemma PowMod(y: int, n: nat, j: nat, m: int)
    requires n > 0 && m > 0
    requires Cong(Pow(y, n), 1, m)
    ensures Cong(Pow(y, j % n), Pow(y, j), m)
  {
    hide Cong, Pow;
    var q, r := j / n, j % n;
    assert q * n >= 0 && n * q >= 0;
    assert j == n * q + r;
    PowAdd(y, n * q, r);
    PowPow(y, n, q);
    PowCong(Pow(y, n), 1, q, m);
    PowOne(q);
    CongMulLeft(Pow(y, r), Pow(y, n * q), 1, m);
    CongSym(Pow(y, j), Pow(y, r), m);
  }

  /** Congruent coefficients give congruent values. */
  lemma EvalCong(p: seq<int>, q: seq<int>, x: int, m: int)
    requires m > 0 && |p| == |q|
    requires forall i :: 0 <= i < |p| ==> Cong(p[i], q[i], m)
    ensures Cong(Eval(p, x), Eval(q, x), m)
  {
    hide Cong, Pow, Sum;
    forall j | 0 <= j < |p|
      ensures Cong(Monomial(p, x)(j), Monomial(q, x)(j), m)
    {
      CongMulLeft(Pow(x, j), p[j], q[j], m);
    }
    SumCong(Monomial(p, x), Monomial(q, x), |p|, m);
  }
}
