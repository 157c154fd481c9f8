/**
 Congruences, powers and finite sums over the integers.

 Every modular argument in this project is made over unbounded integers and
 only reduced at the end, so that the solver sees linear facts wherever it can.
 */
module ModArith {

  // ---------------------------------------------------------------------
  // Products
  // ---------------------------------------------------------------------

  lemma MulComm(x: int, y: int)
    ensures x * y == y * x
  {
  }

  lemma MulAssoc(a: int, b: int, c: int)
    ensures (a * b) * c == a * (b * c)
  {
  }

  lemma MulShuffle(a: int, c: int, x: int)
    ensures (a * c) * x == a * (x * c)
    ensures (a * c) * x == c * (a * x)
  {
    assert (a * c) * x == a * (c * x);
    assert c * (a * x) == (c * a) * x;
  }

  lemma MulDistributes(a: int, b: int, c: int)
    ensures (a + b) * c == a * c + b * c
    ensures c * (a + b) == c * a + c * b
  {
  }

  // ---------------------------------------------------------------------
  // Congruence
  // ---------------------------------------------------------------------

  ghost predicate Cong(a: int, b: int, m: int)
    requires m > 0
  {
    a % m == b % m
  }

  lemma MulApart(d: int, m: int)
    requires m > 0
    requires -m < d * m < m
    ensures d == 0
  {
    if d >= 1 {
      MulMonotone(1, d, m);
    } else if d <= -1 {
      MulMonotone(d, -1, m);
    }
  }

  lemma MulMonotone(x: int, y: int, c: int)
    requires x <= y && c >= 0
    ensures x * c <= y * c
  {
  }

  /** Quotient and remainder are determined by the division equation. */
  lemma DivModUnique(q: int, r: int, m: int)
    requires 0 <= r < m
    ensures (q * m + r) / m == q
    ensures (q * m + r) % m == r
  {
    var x := q * m + r;
    var d := q - x / m;
    assert d * m == x % m - r by {
      assert x == (x / m) * m + x % m;
      assert d * m == q * m - (x / m) * m;
    }
    MulApart(d, m);
  }

  lemma DivTwice(x: int, m: int, n: int)
    requires m > 0 && n > 0
    ensures m * n > 0
    ensures (x / m) / n == x / (m * n)
  {
    var q, r := x / m, x % m;
    var t, s := q / n, q % n;
    assert x == q * m + r;
    assert q == t * n + s;
    MulDistributes(t * n, s, m);
    MulShuffle(t, m, n);
    MulComm(m, n);
    MulAssoc(t, n, m);
    var low := s * m + r;
    MulMonotone(s, n - 1, m);
    MulMonotone(0, s, m);
    MulDistributes(n - 1, 1, m);
    MulMonotone(1, n, m);
    DivModUnique(t, low, m * n);
  }

  lemma CongIntro(a: int, b: int, k: int, m: int)
    requires m > 0
    requires a == b + k * m
    ensures Cong(a, b, m)
  {
    var q := b / m + k;
    assert a == q * m + b % m by {
      assert b == (b / m) * m + b % m;
      assert q * m == (b / m) * m + k * m;
    }
    DivModUnique(q, b % m, m);
  }

  lemma CongElim(a: int, b: int, m: int) returns (k: int)
    requires m > 0
    requires Cong(a, b, m)
    ensures a == b + k * m
  {
    k := a / m - b / m;
    assert a == (a / m) * m + a % m;
    assert b == (b / m) * m + b % m;
    assert k * m == (a / m) * m - (b / m) * m;
  }

  lemma CongSelfMod(a: int, m: int)
    requires m > 0
    ensures Cong(a % m, a, m)
  {
    assert a == (a / m) * m + a % m;
    CongIntro(a, a % m, a / m, m);
  }

  lemma ModSmall(a: int, m: int)
    requires 0 <= a < m
    ensures a % m == a
  {
    DivModUnique(0, a, m);
  }

  /** Congruence is an equivalence; stated so that proofs can keep Cong folded. */
  lemma CongTrans(a: int, b: int, c: int, m: int)
    requires m > 0
    requires Cong(a, b, m) || Cong(b, a, m)
    requires Cong(b, c, m) || Cong(c, b, m)
    ensures Cong(a, c, m) && Cong(c, a, m)
  {
  }

  lemma CongSym(a: int, b: int, m: int)
    requires m > 0 && Cong(a, b, m)
    ensures Cong(b, a, m)
  {
  }

  lemma CongRefl(a: int, m: int)
    requires m > 0
    ensures Cong(a, a, m)
  {
  }

  lemma CongAdd(a: int, b: int, c: int, d: int, m: int)
    requires m > 0
    requires Cong(a, b, m) && Cong(c, d, m)
    ensures Cong(a + c, b + d, m)
  {
    var k := CongElim(a, b, m);
    var l := CongElim(c, d, m);
    assert a + c == b + d + (k + l) * m;
    CongIntro(a + c, b + d, k + l, m);
  }

  lemma CongSub(a: int, b: int, c: int, d: int, m: int)
    requires m > 0
    requires Cong(a, b, m) && Cong(c, d, m)
    ensures Cong(a - c, b - d, m)
  {
    var k := CongElim(a, b, m);
    var l := CongElim(c, d, m);
    assert a - c == b - d + (k - l) * m;
    CongIntro(a - c, b - d, k - l, m);
  }

  lemma CongScale(c: int, a: int, b: int, m: int)
    requires m > 0
    requires Cong(a, b, m)
    ensures Cong(c * a, c * b, m)
  {
    hide Cong;
    var k := CongElim(a, b, m);
    MulDistributes(b, k * m, c);
    MulShuffle(k, c, m);
    MulComm(k, c);
    CongIntro(c * a, c * b, c * k, m);
  }

  lemma CongMulLeft(c: int, a: int, b: int, m: int)
    requires m > 0
    requires Cong(a, b, m)
    ensures Cong(c * a, c * b, m)
    ensures Cong(a * c, b * c, m)
  {
    hide Cong;
    CongScale(c, a, b, m);
    MulComm(c, a);
    MulComm(c, b);
  }

  lemma CongMul(a: int, b: int, c: int, d: int, m: int)
    requires m > 0
    requires Cong(a, b, m) && Cong(c, d, m)
    ensures Cong(a * c, b * d, m)
  {
    hide Cong;
    CongMulLeft(c, a, b, m);
    CongScale(b, c, d, m);
    CongTrans(a * c, b * c, b * d, m);
  }

  /** Congruent canonical residues are equal. */
  lemma CongCanonical(a: int, b: int, m: int)
    requires 0 <= a < m && 0 <= b < m
    requires Cong(a, b, m)
    ensures a == b
  {
    ModSmall(a, m);
    ModSmall(b, m);
  }

  lemma ZeroIffDivides(a: int, m: int)
    requires m > 0
    ensures a % m == 0 <==> Cong(a, 0, m)
  {
    ModSmall(0, m);
  }

  // ---------------------------------------------------------------------
  // Powers, total in the exponent: a non-positive exponent gives 1
  // ---------------------------------------------------------------------

  function Pow(b: int, e: int): int
    decreases e
  {
    if e <= 0 then 1 else b * Pow(b, e - 1)
  }

  lemma PowZero(b: int)
    ensures Pow(b, 0) == 1
  {
  }

  lemma PowNext(b: int, e: nat)
    requires e > 0
    ensures Pow(b, e) == b * Pow(b, e - 1) && Pow(b, 0) == 1
  {
  }

  lemma {:induction false} PowPositive(b: nat, e: nat)
    requires b > 0
    ensures Pow(b, e) > 0
  {
    if e > 0 {
      PowPositive(b, e - 1);
      MulMonotone(1, b, Pow(b, e - 1));
    }
  }

  lemma {:induction false} PowAdd(b: int, x: nat, y: nat)
    ensures Pow(b, x + y) == Pow(b, x) * Pow(b, y)
    decreases x
  {
    if x > 0 {
      PowAdd(b, x - 1, y);
      assert Pow(b, x + y) == b * (Pow(b, x - 1) * Pow(b, y));
      assert b * (Pow(b, x - 1) * Pow(b, y)) == (b * Pow(b, x - 1)) * Pow(b, y);
    }
  }

  lemma {:induction false} PowPow(b: int, x: nat, y: nat)
    ensures x * y >= 0
    ensures Pow(Pow(b, x), y) == Pow(b, x * y)
    decreases y
  {
    if y > 0 {
      PowPow(b, x, y - 1);
      assert x * y == x + x * (y - 1);
      PowAdd(b, x, x * (y - 1));
    } else {
      assert x * y == 0;
    }
  }

  lemma MulInterchange(a: int, b: int, x: int, y: int)
    ensures (a * b) * (x * y) == (a * x) * (b * y)
  {
    assert (a * b) * (x * y) == a * (b * (x * y));
    assert b * (x * y) == x * (b * y);
  }

  lemma {:induction false} PowProduct(a: int, b: int, e: nat)
    ensures Pow(a * b, e) == Pow(a, e) * Pow(b, e)
  {
    if e > 0 {
      PowProduct(a, b, e - 1);
      var x, y := Pow(a, e - 1), Pow(b, e - 1);
      MulInterchange(a, b, x, y);
    }
  }

  lemma {:induction false} PowOne(e: nat)
    ensures Pow(1, e) == 1
  {
    if e > 0 {
      PowOne(e - 1);
    }
  }

  lemma {:induction false} PowCong(a: int, b: int, e: nat, m: int)
    requires m > 0
    requires Cong(a, b, m)
    ensures Cong(Pow(a, e), Pow(b, e), m)
  {
    if e > 0 {
      PowCong(a, b, e - 1, m);
      CongMul(a, b, Pow(a, e - 1), Pow(b, e - 1), m);
    }
  }

  /** One step of a squaring chain. */
  lemma PowSquareStep(b: int, e: nat, c: int, d: int, m: int)
    requires m > 0
    requires Pow(b, e) % m == c
    requires (c * c) % m == d
    ensures Pow(b, 2 * e) % m == d
  {
    PowAdd(b, e, e);
    CongSelfMod(Pow(b, e), m);
    CongMul(c, Pow(b, e), c, Pow(b, e), m);
  }

  // ---------------------------------------------------------------------
  // Finite sums
  // ---------------------------------------------------------------------

  ghost function Sum(f: int -> int, n: int): int
    decreases n
  {
    if n <= 0 then 0 else Sum(f, n - 1) + f(n - 1)
  }

  lemma {:induction false} SumExt(f: int -> int, g: int -> int, n: nat)
    requires forall i :: 0 <= i < n ==> f(i) == g(i)
    ensures Sum(f, n) == Sum(g, n)
  {
    if n > 0 {
      SumExt(f, g, n - 1);
    }
  }

  lemma {:induction false} SumCong(f: int -> int, g: int -> int, n: nat, m: int)
    requires m > 0
    requires forall i :: 0 <= i < n ==> Cong(f(i), g(i), m)
    ensures Cong(Sum(f, n), Sum(g, n), m)
  {
    if n > 0 {
      SumCong(f, g, n - 1, m);
      CongAdd(Sum(f, n - 1), Sum(g, n - 1), f(n - 1), g(n - 1), m);
    }
  }

  lemma {:induction false} SumAdd(f: int -> int, g: int -> int, h: int -> int, n: nat)
    requires forall i :: 0 <= i < n ==> h(i) == f(i) + g(i)
    ensures Sum(h, n) == Sum(f, n) + Sum(g, n)
  {
    if n > 0 {
      SumAdd(f, g, h, n - 1);
    }
  }

  lemma {:induction false} SumScale(c: int, f: int -> int, h: int -> int, n: nat)
    requires forall i :: 0 <= i < n ==> h(i) == c * f(i)
    ensures Sum(h, n) == c * Sum(f, n)
  {
    if n > 0 {
      SumScale(c, f, h, n - 1);
      assert c * Sum(f, n - 1) + c * f(n - 1) == c * (Sum(f, n - 1) + f(n - 1));
    } else {
      assert c * 0 == 0;
    }
  }

  lemma {:induction false} SumZero(f: int -> int, n: nat)
    requires forall i :: 0 <= i < n ==> f(i) == 0
    ensures Sum(f, n) == 0
  {
    if n > 0 {
      SumZero(f, n - 1);
    }
  }

  /** A sum with a single non-zero term. */
  lemma {:induction false} SumSingle(f: int -> int, n: nat, k: nat)
    requires k < n
    requires forall i :: 0 <= i < n && i != k ==> f(i) == 0
    ensures Sum(f, n) == f(k)
  {
    if k == n - 1 {
      SumZero(f, n - 1);
    } else {
      SumSingle(f, n - 1, k);
    }
  }

  /** Splits a sum of length m + n after m terms. */
  lemma {:induction false} SumSplit(f: int -> int, g: int -> int, m: nat, n: nat)
    requires forall i :: 0 <= i < n ==> g(i) == f(m + i)
    ensures Sum(f, m + n) == Sum(f, m) + Sum(g, n)
    decreases n
  {
    if n > 0 {
      SumSplit(f, g, m, n - 1);
    }
  }

  /** Splits a sum of length 2n into even and odd positions. */
  lemma {:induction false} SumEvenOdd(f: int -> int, e: int -> int, o: int -> int, n: nat)
    requires forall i :: 0 <= i < n ==> e(i) == f(2 * i) && o(i) == f(2 * i + 1)
    ensures Sum(f, 2 * n) == Sum(e, n) + Sum(o, n)
  {
    if n > 0 {
      SumEvenOdd(f, e, o, n - 1);
      assert Sum(f, 2 * n) == Sum(f, 2 * n - 2) + f(2 * n - 2) + f(2 * n - 1);
    }
  }

  /** Sequence element, zero outside the range. */
  function At(s: seq<int>, i: int): int {
    if 0 <= i < |s| then s[i] else 0
  }

  ghost function Scaled(c: int, f: int -> int): int -> int {
    i => c * f(i)
  }

  /** Row i of a two-argument summand. */
  ghost function Row(g: (int, int) -> int, i: int): int -> int {
    j => g(i, j)
  }

  ghost function Col(g: (int, int) -> int, j: int): int -> int {
    i => g(i, j)
  }

  ghost function RowSums(g: (int, int) -> int, n: nat): int -> int {
    i => Sum(Row(g, i), n)
  }

  ghost function ColSums(g: (int, int) -> int, m: nat): int -> int {
    j => Sum(Col(g, j), m)
  }

  /** The order of a finite double sum does not matter. */
  lemma {:induction false} SumSwap(g: (int, int) -> int, m: nat, n: nat)
    ensures Sum(RowSums(g, n), m) == Sum(ColSums(g, m), n)
    decreases m
  {
    if m == 0 {
      SumZero(ColSums(g, 0), n);
    } else {
      SumSwap(g, m - 1, n);
      SumAdd(ColSums(g, m - 1), Row(g, m - 1), ColSums(g, m), n);
    }
  }
}
