/**
 Laws of the transform that do not mention the algorithm: inversion,
 linearity and the convolution theorem.
 */
module TransformLaws {
  import opened ModArith
  import opened BitReversal
  import opened Transform
  import opened Roots

  // ---------------------------------------------------------------------
  // Orthogonality of the roots
  // ---------------------------------------------------------------------

  ghost function Geo(y: int): int -> int {
    m => Pow(y, m)
  }

  lemma GeoSplit(y: int, h: nat)
    ensures Sum(Geo(y), 2 * h) == (1 + Pow(y, h)) * Sum(Geo(y), h)
  {
    hide Pow, Sum;
    var c := Pow(y, h);
    forall m | 0 <= m < h
      ensures Scaled(c, Geo(y))(m) == Geo(y)(h + m)
    {
      PowAdd(y, h, m);
    }
    SumSplit(Geo(y), Scaled(c, Geo(y)), h, h);
    SumScale(c, Geo(y), Scaled(c, Geo(y)), h);
  }

  /** The powers of a root of order n at a non-zero frequency cancel out. */
  lemma {:induction false} GeoVanishes(root: int, d: int, n: int)
    requires PowerOfTwo(n) && 0 < d < n
    requires Cong(Pow(root, n / 2), -1, MOD)
    ensures Cong(Sum(Geo(Pow(root, d)), n), 0, MOD)
    decreases n
  {
    hide Cong, Pow, Sum;
    var h, y := n / 2, Pow(root, d);
    GeoSplit(y, h);
    var half := Sum(Geo(y), h);
    if d % 2 == 1 {
      PowSwap(root, d, h);
      PowCong(Pow(root, h), -1, d, MOD);
      PowMinusOne(d);
      CongRefl(1, MOD);
      CongAdd(1, 1, Pow(y, h), -1, MOD);
      CongMulLeft(half, 1 + Pow(y, h), 0, MOD);
    } else {
      PowPow(root, 2, d / 2);
      PowPow(root, 2, h / 2);
      GeoVanishes(Pow(root, 2), d / 2, h);
      CongMulLeft(1 + Pow(y, h), half, 0, MOD);
    }
  }

  lemma PowSwap(b: int, x: nat, y: nat)
    ensures Pow(Pow(b, x), y) == Pow(Pow(b, y), x)
  {
    hide Pow;
    PowPow(b, x, y);
    PowPow(b, y, x);
    assert x * y == y * x;
  }

  lemma {:induction false} GeoOnes(y: int, n: nat)
    requires Cong(y, 1, MOD)
    ensures Cong(Sum(Geo(y), n), n, MOD)
  {
    if n > 0 {
      hide Cong, Pow;
      GeoOnes(y, n - 1);
      PowCong(y, 1, n - 1, MOD);
      PowOne(n - 1);
      CongAdd(Sum(Geo(y), n - 1), n - 1, Pow(y, n - 1), 1, MOD);
    }
  }

  /** w^j * v^k is a power of w or of v when v inverts w. */
  lemma MixedPower(w: int, v: int, j: nat, k: nat)
    requires Cong(w * v, 1, MOD)
    ensures j >= k ==> Cong(Pow(w, j) * Pow(v, k), Pow(w, j - k), MOD)
    ensures j < k ==> Cong(Pow(w, j) * Pow(v, k), Pow(v, k - j), MOD)
  {
    hide Cong, Pow;
    var c, r := if j < k then j else k, if j < k then Pow(v, k - j) else Pow(w, j - k);
    PowProduct(w, v, c);
    PowCong(w * v, 1, c, MOD);
    PowOne(c);
    if j < k {
      PowAdd(v, j, k - j);
    } else {
      PowAdd(w, k, j - k);
    }
    var x, y := Pow(w, c), Pow(v, c);
    CongMulLeft(r, x * y, 1, MOD);
    assert r * (x * y) == (r * x) * y == x * (y * r);
  }

  lemma Orthogonality(w: int, v: int, n: int, j: nat, k: nat)
    requires PowerOfTwo(n) && j < n && k < n
    requires n > 1 ==> Cong(Pow(w, n / 2), -1, MOD) && Cong(Pow(v, n / 2), -1, MOD)
    requires Cong(w * v, 1, MOD)
    ensures Cong(Sum(Geo(Pow(w, j) * Pow(v, k)), n), if j == k then n else 0, MOD)
  {
    hide Cong, Pow, Sum;
    var y := Pow(w, j) * Pow(v, k);
    MixedPower(w, v, j, k);
    if j == k {
      PowUnfold(w, 1);
      GeoOnes(y, n);
    } else {
      var base, d := if j < k then v else w, if j < k then k - j else j - k;
      GeoVanishes(base, d, n);
      forall m | 0 <= m < n
        ensures Cong(Geo(y)(m), Geo(Pow(base, d))(m), MOD)
      {
        PowCong(y, Pow(base, d), m, MOD);
      }
      SumCong(Geo(y), Geo(Pow(base, d)), n, MOD);
      CongTrans(Sum(Geo(y), n), Sum(Geo(Pow(base, d)), n), 0, MOD);
    }
  }

  // ---------------------------------------------------------------------
  // Inversion
  // ---------------------------------------------------------------------

  /** Summand of the transform of a transform: frequency m, original position j. */
  ghost function Inner(s: seq<int>, w: int, v: int, k: int): (int, int) -> int {
    (m, j) => (At(s, j) * Pow(w, j * m)) * Pow(v, m * k)
  }

  lemma InnerRow(s: seq<int>, w: int, v: int, k: nat, m: nat)
    requires m < |s|
    ensures Cong(Term(Dft(s, w), v, k)(m), Sum(Row(Inner(s, w, v, k), m), |s|), MOD)
  {
    hide Cong, Pow, Sum, Red;
    var c := Pow(v, m * k);
    forall j | 0 <= j < |s|
      ensures Row(Inner(s, w, v, k), m)(j) == c * Term(s, w, m)(j)
    {
      MulComm(At(s, j) * Pow(w, j * m), c);
    }
    SumScale(c, Term(s, w, m), Row(Inner(s, w, v, k), m), |s|);
    RedCong(DftAt(s, w, m), 0);
    var d := Dft(s, w)[m];
    CongMulLeft(c, d, DftAt(s, w, m), MOD);
    assert Term(Dft(s, w), v, k)(m) == d * c;
  }

  lemma InnerCol(s: seq<int>, w: int, v: int, k: nat, j: nat)
    requires j < |s|
    ensures Sum(Col(Inner(s, w, v, k), j), |s|) == s[j] * Sum(Geo(Pow(w, j) * Pow(v, k)), |s|)
  {
    hide Pow, Sum;
    var y := Pow(w, j) * Pow(v, k);
    forall m | 0 <= m < |s|
      ensures Col(Inner(s, w, v, k), j)(m) == s[j] * Geo(y)(m)
    {
      PowPow(w, j, m);
      PowPow(v, k, m);
      assert m * k == k * m;
      PowProduct(Pow(w, j), Pow(v, k), m);
      MulShuffle(s[j], Pow(v, m * k), Pow(w, j * m));
      MulAssoc(s[j], Pow(w, j * m), Pow(v, m * k));
    }
    SumScale(s[j], Geo(y), Col(Inner(s, w, v, k), j), |s|);
  }

  /** c times the indicator of position k. */
  ghost function Spike(k: int, c: int): int -> int {
    j => if j == k then c else 0
  }

  /** Transforming with w and then with its inverse v multiplies every entry by the length. */
  lemma DftInverse(s: seq<int>, w: int, v: int, k: nat)
    requires PowerOfTwo(|s|) && k < |s|
    requires |s| > 1 ==> Cong(Pow(w, |s| / 2), -1, MOD) && Cong(Pow(v, |s| / 2), -1, MOD)
    requires Cong(w * v, 1, MOD)
    ensures Cong(DftAt(Dft(s, w), v, k), s[k] * |s|, MOD)
  {
    hide Cong, Pow, Sum, Red;
    var n, g := |s|, Inner(s, w, v, k);
    forall m | 0 <= m < n
      ensures Cong(Term(Dft(s, w), v, k)(m), RowSums(g, n)(m), MOD)
    {
      InnerRow(s, w, v, k, m);
    }
    SumCong(Term(Dft(s, w), v, k), RowSums(g, n), n, MOD);
    SumSwap(g, n, n);
    forall j | 0 <= j < n
      ensures Cong(ColSums(g, n)(j), Spike(k, s[k] * n)(j), MOD)
    {
      InnerCol(s, w, v, k, j);
      Orthogonality(w, v, n, j, k);
      CongMulLeft(s[j], Sum(Geo(Pow(w, j) * Pow(v, k)), n), if j == k then n else 0, MOD);
    }
    SumCong(ColSums(g, n), Spike(k, s[k] * n), n, MOD);
    SumSingle(Spike(k, s[k] * n), n, k);
    CongTrans(DftAt(Dft(s, w), v, k), Sum(ColSums(g, n), n), s[k] * n, MOD);
  }
}
