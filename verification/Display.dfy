/**
 Which coefficients show gets right. A buffer keeps a polynomial modulo
 x^128 - 1, so a coefficient is wrong exactly when one 128 places above it is
 not zero; for a product that is decided by the degrees of its factors, because
 the modulus is prime.
 */
module Display {
  import opened Machine
  import opened ModArith
  import opened Polynomials
  import opened Transform
  import opened Primes
  import opened ModulusPrime
  import opened Calculator

  // ---------------------------------------------------------------------
  // One coefficient
  // ---------------------------------------------------------------------

  lemma FoldOnce(p: seq<int>, k: nat)
    requires |p| <= 2 * N && k < N
    ensures Fold(p, N)[k] == At(p, k) + At(p, k + N)
  {
    hide Sum;
    var f := (j: int) => if j == k then At(p, k) else 0;
    var g := (j: int) => if j == k + N then At(p, k + N) else 0;
    forall j | 0 <= j < |p|
      ensures FoldTerm(p, N, k)(j) == f(j) + g(j)
    {
    }
    SumAdd(f, g, FoldTerm(p, N, k), |p|);
    if k < |p| {
      SumSingle(f, |p|, k);
    } else {
      SumZero(f, |p|);
    }
    if k + N < |p| {
      SumSingle(g, |p|, k + N);
    } else {
      SumZero(g, |p|);
    }
  }

  /** A coefficient survives the reduction exactly when nothing is folded onto it. */
  lemma CoefficientKeptIff(p: seq<int>, k: nat)
    requires Canonical(p) && |p| <= 2 * N && k < N
    ensures Reduced128(p)[k] == At(p, k) <==> At(p, k + N) == 0
  {
    FoldOnce(p, k);
    var x, y := At(p, k), At(p, k + N);
    assert 0 <= x < MOD && 0 <= y < MOD;
    if x + y < MOD {
      ModSmall(x + y, MOD);
    } else {
      DivModUnique(1, x + y - MOD, MOD);
    }
  }

  /** A polynomial of any length without coefficients from 128 on is its own reduction. */
  lemma FoldLow(p: seq<int>, k: nat)
    requires Canonical(p) && k < N && forall j :: N <= j < |p| ==> p[j] == 0
    ensures Reduced128(p)[k] == At(p, k)
  {
    hide Sum;
    forall j | 0 <= j < |p| && j != k
      ensures FoldTerm(p, N, k)(j) == 0
    {
    }
    if k < |p| {
      SumSingle(FoldTerm(p, N, k), |p|, k);
    } else {
      SumZero(FoldTerm(p, N, k), |p|);
    }
    ModSmall(At(p, k), MOD);
  }

  // ---------------------------------------------------------------------
  // One slot
  // ---------------------------------------------------------------------

  /** What show prints for the slot gives every coefficient of its polynomial; those not printed are zero. */
  ghost predicate ShowsTruly(m: seq<Slot>, idx: int)
    requires forall i :: 0 <= i < |m| && m[i].Held? ==> m[i].len >= 0
  {
    IsHeld(m, idx) && forall k :: k >= 0 ==> At(Printed(m, idx).value, k) == At(m[idx].poly, k)
  }

  function Shown(len: int): int {
    if len > N then N else len
  }

  /** Show is right exactly when the polynomial ends within the printed length. */
  lemma ShownTrulyIff(m: seq<Slot>, idx: int)
    requires forall i :: 0 <= i < |m| && m[i].Held? ==> m[i].len >= 0
    requires IsHeld(m, idx) && Canonical(m[idx].poly)
    ensures ShowsTruly(m, idx) <==> forall k :: Shown(m[idx].len) <= k < |m[idx].poly| ==> m[idx].poly[k] == 0
  {
    hide Reduced128;
    var p, n := m[idx].poly, Shown(m[idx].len);
    ReducedLength(p);
    var out := Printed(m, idx).value;
    if forall k :: n <= k < |p| ==> p[k] == 0 {
      forall k | k >= 0
        ensures At(out, k) == At(p, k)
      {
        if k < n {
          FoldLow(p, k);
        }
      }
    }
    if ShowsTruly(m, idx) {
      forall k | n <= k < |p|
        ensures p[k] == 0
      {
        assert At(out, k) == At(p, k);
      }
    }
  }

  // ---------------------------------------------------------------------
  // Degrees
  // ---------------------------------------------------------------------

  /** One more than the degree; 0 for the zero polynomial, however long. */
  function Size(p: seq<int>): (n: nat)
    ensures n <= |p|
    ensures forall k :: n <= k < |p| ==> p[k] == 0
    ensures n > 0 ==> p[n - 1] != 0
  {
    if p == [] then 0 else if p[|p| - 1] != 0 then |p| else Size(p[..|p| - 1])
  }

  /** Summand i of coefficient c is zero unless both factors reach that far. */
  lemma TermBeyond(a: seq<int>, b: seq<int>, c: nat, i: nat)
    requires i < |a| && (i >= Size(a) || c - i >= Size(b) || c < i)
    ensures ProductTerm(a, b, c)(i) == 0
  {
    if i >= Size(a) {
      MulComm(0, At(b, c - i));
    } else {
      MulComm(At(a, i), 0);
    }
  }

  /** The product has no coefficient beyond the sum of the degrees. */
  lemma ProductBeyond(a: seq<int>, b: seq<int>, c: nat)
    requires c < |PolyMul(a, b)| && (Size(a) == 0 || Size(b) == 0 || c > Size(a) - 1 + Size(b) - 1)
    ensures PolyMul(a, b)[c] == 0
  {
    hide Sum, Size;
    forall i | 0 <= i < |a|
      ensures ProductTerm(a, b, c)(i) == 0
    {
      TermBeyond(a, b, c, i);
    }
    SumZero(ProductTerm(a, b, c), |a|);
    ModSmall(0, MOD);
  }

  /** And its coefficient there, a product of two residues that are not zero, is not zero. */
  lemma ProductTop(a: seq<int>, b: seq<int>)
    requires Canonical(a) && Canonical(b) && Size(a) > 0 && Size(b) > 0
    ensures Size(a) - 1 + Size(b) - 1 < |PolyMul(a, b)|
    ensures PolyMul(a, b)[Size(a) - 1 + Size(b) - 1] != 0
  {
    hide Sum, Size, Red;
    var i, j := Size(a) - 1, Size(b) - 1;
    var c := i + j;
    forall h | 0 <= h < |a| && h != i
      ensures ProductTerm(a, b, c)(h) == 0
    {
      TermBeyond(a, b, c, h);
    }
    SumSingle(ProductTerm(a, b, c), |a|, i);
    assert Product(a, b)[c] == ProductAt(a, b, c) == ProductTerm(a, b, c)(i);
    assert ProductTerm(a, b, c)(i) == At(a, i) * At(b, c - i) == a[i] * b[j];
    ResiduesMultiply(a[i], b[j]);
  }

  lemma ResiduesMultiply(x: int, y: int)
    requires 0 < x < MOD && 0 < y < MOD
    ensures Red(x * y) != 0
  {
    ModPrime();
    hide Prime, Cong;
    SmallNotZero(x, MOD);
    SmallNotZero(y, MOD);
    if Cong(x * y, 0, MOD) {
      Euclid(x, y, MOD);
    }
    ZeroIffDivides(x * y, MOD);
  }

  // ---------------------------------------------------------------------
  // One multiply
  // ---------------------------------------------------------------------

  /** A product of exact slots is shown with its true coefficients exactly when a factor is zero or the degrees add
      up to less than 128. */
  lemma ProductShownTrulyIff(m: seq<Slot>, a: nat, dest: nat)
    requires |m| == POLY_COUNT && Exact(m) && IsHeld(m, a) && IsHeld(m, dest)
    ensures var r := Step(m, Multiply(a, dest));
            var x, y := Size(m[a].poly), Size(m[dest].poly);
            && (forall i :: 0 <= i < POLY_COUNT && r[i].Held? ==> r[i].len >= 0)
            && (ShowsTruly(r, dest) <==> x == 0 || y == 0 || (x - 1) + (y - 1) < N)
  {
    hide Size, Printed, ShowsTruly, ProductAt;
    var r := Step(m, Multiply(a, dest));
    var p, q := m[a].poly, m[dest].poly;
    var product := PolyMul(p, q);
    assert Canonical(product);
    ShownTrulyIff(r, dest);
    SizeBound(p);
    SizeBound(q);
    var x, y := Size(p), Size(q);
    var n := Shown(r[dest].len);
    assert r[dest].len == |p| + |q| - 1 == |product|;
    if x == 0 || y == 0 || (x - 1) + (y - 1) < N {
      forall k | n <= k < |product|
        ensures product[k] == 0
      {
        ProductBeyond(p, q, k);
      }
    } else {
      ProductTop(p, q);
      assert n == N;
    }
  }

  lemma SizeBound(p: seq<int>)
    ensures Size(p) <= |p|
  {
  }

  // ---------------------------------------------------------------------
  // A run that goes wrong
  // ---------------------------------------------------------------------

  lemma {:induction false} SizeIs(p: seq<int>, n: nat)
    requires 0 < n <= |p| && p[n - 1] != 0 && forall k :: n <= k < |p| ==> p[k] == 0
    ensures Size(p) == n
  {
    if |p| > n {
      SizeIs(p[..|p| - 1], n);
    }
  }

  /** Degrees add up. */
  lemma ProductSize(a: seq<int>, b: seq<int>)
    requires Canonical(a) && Canonical(b) && Size(a) > 0 && Size(b) > 0
    ensures Size(PolyMul(a, b)) == Size(a) + Size(b) - 1
  {
    hide Size, ProductAt;
    var n := Size(a) + Size(b) - 1;
    ProductTop(a, b);
    forall k | n <= k < |PolyMul(a, b)| ensures PolyMul(a, b)[k] == 0 {
      ProductBeyond(a, b, k);
    }
    SizeIs(PolyMul(a, b), n);
  }

  lemma SquareSlot(m: seq<Slot>)
    requires |m| == POLY_COUNT && Exact(m) && IsHeld(m, 0) && Size(m[0].poly) > 0 && 2 * m[0].len - 1 <= N
    ensures Defined(m, Multiply(0, 0)) && Fits(m, Multiply(0, 0))
    ensures var r := Step(m, Multiply(0, 0));
            && Exact(r) && IsHeld(r, 0) && r[0].len == 2 * m[0].len - 1
            && Size(r[0].poly) == 2 * Size(m[0].poly) - 1
  {
    hide Size, ProductAt;
    StepExact(m, Multiply(0, 0));
    ProductSize(m[0].poly, m[0].poly);
  }

  ghost function Started(): (m: seq<Slot>)
    ensures |m| == POLY_COUNT && forall i :: 0 <= i < |m| ==> m[i] == Empty
  {
    seq(POLY_COUNT, _ => Empty)
  }

  /** The largest power of x the program reads. */
  ghost function Typed(): (input: seq<uint32>)
    ensures |input| == MAX_DEGREE + 1
  {
    seq(MAX_DEGREE, _ => 0) + [1]
  }

  lemma ReadSixteen()
    ensures Defined(Started(), Read(0, MAX_DEGREE, Typed())) && Fits(Started(), Read(0, MAX_DEGREE, Typed()))
    ensures var r := Step(Started(), Read(0, MAX_DEGREE, Typed()));
            Exact(r) && IsHeld(r, 0) && r[0].len == 17 && Size(r[0].poly) == 17
  {
    hide Size;
    StepExact(Started(), Read(0, MAX_DEGREE, Typed()));
    var p := InputPoly(MAX_DEGREE, Typed());
    assert Typed()[16] == 1;
    ModSmall(1, MOD);
    SizeIs(p, 17);
  }

  lemma RunOfTwo(m: seq<Slot>, c: Command, d: Command)
    requires |m| == POLY_COUNT && Defined(m, c) && Fits(m, c)
    requires Defined(Step(m, c), d) && Fits(Step(m, c), d)
    ensures RunFits(m, [c, d]) && Run(m, [c, d]) == Step(Step(m, c), d)
  {
    hide Step, Defined, Fits;
    var r := Step(m, c);
    assert [c, d][1..] == [d] && [d][1..] == [];
    assert RunFits(Step(r, d), []) && RunFits(r, [d]);
    assert Run(r, [d]) == Run(Step(r, d), []);
  }

  /** x^16 squared twice is x^64, stored exactly; squared once more it is x^128, and show prints something else. */
  lemma WrongAfterSquarings()
    ensures var m := Step(Started(), Read(0, MAX_DEGREE, Typed()));
            && RunFits(m, [Multiply(0, 0), Multiply(0, 0)])
            && var r := Step(Run(m, [Multiply(0, 0), Multiply(0, 0)]), Multiply(0, 0));
            && (forall i :: 0 <= i < |r| && r[i].Held? ==> r[i].len >= 0) && !ShowsTruly(r, 0)
  {
    hide Size, Step, Exact, ShowsTruly, Fits, Defined;
    ReadSixteen();
    var m := Step(Started(), Read(0, MAX_DEGREE, Typed()));
    SquareSlot(m);
    var s := Step(m, Multiply(0, 0));
    SquareSlot(s);
    var t := Step(s, Multiply(0, 0));
    RunOfTwo(m, Multiply(0, 0), Multiply(0, 0));
    ProductShownTrulyIff(t, 0, 0);
  }
}
