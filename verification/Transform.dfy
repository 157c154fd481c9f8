/**
 The discrete Fourier transform over the integers modulo MOD, stated as the
 plain double sum, and the algebra that the iterative algorithm of polys.c
 relies on: the even/odd split, root orthogonality, and cyclic convolution.
 */
module Transform {
  import opened ModArith
  import opened BitReversal

  const MOD: int := 2281701377

  ghost predicate Canonical(s: seq<int>) {
    forall i :: 0 <= i < |s| ==> 0 <= s[i] < MOD
  }

  /** The canonical residue; kept folded in proofs about products. */
  function Red(x: int): (r: int)
    ensures 0 <= r < MOD
  {
    x % MOD
  }

  lemma RedCong(a: int, b: int)
    ensures Red(a) == Red(b) <==> Cong(a, b, MOD)
    ensures Cong(Red(a), a, MOD) && Cong(a, Red(a), MOD)
  {
    CongSelfMod(a, MOD);
  }

  ghost function Term(s: seq<int>, w: int, k: int): int -> int {
    j => At(s, j) * Pow(w, j * k)
  }

  ghost function DftAt(s: seq<int>, w: int, k: int): int {
    Sum(Term(s, w, k), |s|)
  }

  /** Position k holds the sum over j of s[j] * w^(j*k), reduced modulo MOD. */
  ghost function Dft(s: seq<int>, w: int): (t: seq<int>)
    ensures |t| == |s|
    ensures forall k {:trigger t[k]} :: 0 <= k < |s| ==> t[k] == Red(DftAt(s, w, k))
  {
    seq(|s|, k requires 0 <= k < |s| => Red(DftAt(s, w, k)))
  }

  // ---------------------------------------------------------------------
  // Even/odd split
  // ---------------------------------------------------------------------

  ghost function EvenTerm(s: seq<int>, w: int, k: int): int -> int {
    i => At(s, 2 * i) * Pow(w, (2 * i) * k)
  }

  ghost function OddTerm(s: seq<int>, w: int, k: int): int -> int {
    i => At(s, 2 * i + 1) * Pow(w, (2 * i + 1) * k)
  }

  /** w^(2*i*k) reduces to v^(i*k) when v is w squared. */
  lemma PowEven(w: int, v: int, i: nat, k: nat)
    requires Cong(w * w, v, MOD)
    ensures i * k >= 0 && (2 * i) * k >= 0
    ensures Cong(Pow(w, (2 * i) * k), Pow(v, i * k), MOD)
  {
    hide Cong;
    assert i * k >= 0;
    assert (2 * i) * k == 2 * (i * k);
    PowPow(w, 2, i * k);
    assert Pow(w, 2) == w * w by {
      assert Pow(w, 1) == w * Pow(w, 0);
    }
    PowCong(w * w, v, i * k, MOD);
  }

  lemma PowOdd(w: int, i: nat, k: nat)
    ensures (2 * i) * k >= 0 && (2 * i + 1) * k >= 0
    ensures Pow(w, (2 * i + 1) * k) == Pow(w, (2 * i) * k) * Pow(w, k)
  {
    assert (2 * i) * k >= 0;
    assert (2 * i + 1) * k == (2 * i) * k + k;
    PowAdd(w, (2 * i) * k, k);
  }

  lemma EvenTermCong(s: seq<int>, w: int, v: int, k: nat, i: nat)
    requires i < |s| / 2
    requires Cong(w * w, v, MOD)
    ensures Cong(EvenTerm(s, w, k)(i), Term(Evens(s), v, k)(i), MOD)
  {
    hide Cong, Pow;
    PowEven(w, v, i, k);
    CongMulLeft(s[2 * i], Pow(w, (2 * i) * k), Pow(v, i * k), MOD);
  }

  lemma OddTermCong(s: seq<int>, w: int, v: int, k: nat, i: nat)
    requires i < |s| / 2
    requires Cong(w * w, v, MOD)
    ensures Cong(OddTerm(s, w, k)(i), Scaled(Pow(w, k), Term(Odds(s), v, k))(i), MOD)
  {
    hide Cong, Pow;
    PowEven(w, v, i, k);
    PowOdd(w, i, k);
    var x, y, a, c := Pow(w, (2 * i) * k), Pow(v, i * k), s[2 * i + 1], Pow(w, k);
    CongMulLeft(a * c, x, y, MOD);
    MulShuffle(a, c, x);
    MulShuffle(a, c, y);
  }

  lemma DftSplit(s: seq<int>, w: int, v: int, k: nat)
    requires |s| % 2 == 0
    requires Cong(w * w, v, MOD)
    ensures Cong(DftAt(s, w, k), DftAt(Evens(s), v, k) + Pow(w, k) * DftAt(Odds(s), v, k), MOD)
  {
    hide Cong, Pow, Sum;
    var h := |s| / 2;
    var e, o, c := Term(Evens(s), v, k), Term(Odds(s), v, k), Pow(w, k);
    SumEvenOdd(Term(s, w, k), EvenTerm(s, w, k), OddTerm(s, w, k), h);
    EvenSum(s, w, v, k);
    OddSum(s, w, v, k);
    CongAdd(Sum(EvenTerm(s, w, k), h), Sum(e, h), Sum(OddTerm(s, w, k), h), c * Sum(o, h), MOD);
  }

  lemma EvenSum(s: seq<int>, w: int, v: int, k: nat)
    requires Cong(w * w, v, MOD)
    ensures Cong(Sum(EvenTerm(s, w, k), |s| / 2), DftAt(Evens(s), v, k), MOD)
  {
    hide Cong, Pow, Sum, EvenTerm, Term;
    forall i | 0 <= i < |s| / 2
      ensures Cong(EvenTerm(s, w, k)(i), Term(Evens(s), v, k)(i), MOD)
    {
      EvenTermCong(s, w, v, k, i);
    }
    SumCong(EvenTerm(s, w, k), Term(Evens(s), v, k), |s| / 2, MOD);
  }

  lemma OddSum(s: seq<int>, w: int, v: int, k: nat)
    requires Cong(w * w, v, MOD)
    ensures Cong(Sum(OddTerm(s, w, k), |s| / 2), Pow(w, k) * DftAt(Odds(s), v, k), MOD)
  {
    hide Cong, Pow, Sum, OddTerm, Term;
    var c, o := Pow(w, k), Term(Odds(s), v, k);
    forall i | 0 <= i < |s| / 2
      ensures Cong(OddTerm(s, w, k)(i), Scaled(c, o)(i), MOD)
    {
      OddTermCong(s, w, v, k, i);
    }
    SumCong(OddTerm(s, w, k), Scaled(c, o), |s| / 2, MOD);
    SumScale(c, o, Scaled(c, o), |s| / 2);
  }

  /** The transform is periodic in the frequency. */
  lemma DftPeriodic(s: seq<int>, w: int, p: nat, k: nat)
    requires Cong(Pow(w, p), 1, MOD)
    ensures Cong(DftAt(s, w, k + p), DftAt(s, w, k), MOD)
  {
    hide Cong;
    forall j | 0 <= j < |s|
      ensures Cong(Term(s, w, k + p)(j), Term(s, w, k)(j), MOD)
    {
      PowPeriodic(w, p, j, k);
      CongMulLeft(s[j], Pow(w, j * (k + p)), Pow(w, j * k), MOD);
    }
    SumCong(Term(s, w, k + p), Term(s, w, k), |s|, MOD);
  }

  lemma PowPeriodic(w: int, p: nat, j: nat, k: nat)
    requires Cong(Pow(w, p), 1, MOD)
    ensures Cong(Pow(w, j * (k + p)), Pow(w, j * k), MOD)
  {
    hide Cong, Pow;
    PowFullTurns(w, p, j, j * k);
  }

  lemma PowFullTurns(w: int, p: nat, j: nat, x: nat)
    requires Cong(Pow(w, p), 1, MOD)
    ensures Cong(Pow(w, x + p * j), Pow(w, x), MOD)
  {
    hide Cong, Pow;
    PowPow(w, p, j);
    PowAdd(w, x, p * j);
    PowCong(Pow(w, p), 1, j, MOD);
    PowOne(j);
    CongMulLeft(Pow(w, x), Pow(w, p * j), 1, MOD);
  }

  // ---------------------------------------------------------------------
  // Butterflies
  // ---------------------------------------------------------------------

  ghost function Up(u: int, v: int, w: int, k: int): int {
    Red(u + v * Pow(w, k))
  }

  ghost function Down(u: int, v: int, w: int, k: int): int {
    Red(u - v * Pow(w, k))
  }

  /** One butterfly pass over a block: first half u + v*w^k, second half u - v*w^k. */
  ghost function Butterfly(s: seq<int>, w: int): (t: seq<int>)
    requires |s| % 2 == 0
    ensures |t| == |s|
    ensures forall k {:trigger t[k]} :: 0 <= k < |s| / 2 ==> t[k] == Up(s[k], s[k + |s| / 2], w, k)
    ensures forall k {:trigger t[k]} :: |s| / 2 <= k < |s| ==>
              t[k] == Down(s[k - |s| / 2], s[k], w, k - |s| / 2)
  {
    var h := |s| / 2;
    seq(|s|, k requires 0 <= k < |s| =>
      if k < h then Up(s[k], s[k + h], w, k) else Down(s[k - h], s[k], w, k - h))
  }

  /** Combining the two half-size transforms with one butterfly pass gives the whole transform. */
  lemma DftCombine(s: seq<int>, w: int, v: int)
    requires |s| % 2 == 0 && |s| > 0
    requires Cong(w * w, v, MOD)
    requires Cong(Pow(w, |s| / 2), -1, MOD)
    ensures Butterfly(Dft(Evens(s), v) + Dft(Odds(s), v), w) == Dft(s, w)
  {
    hide Cong, Pow, DftAt, Red, Up, Down;
    var h := |s| / 2;
    var t := Dft(Evens(s), v) + Dft(Odds(s), v);
    forall k | 0 <= k < |s|
      ensures Butterfly(t, w)[k] == Dft(s, w)[k]
    {
      var i := if k < h then k else k - h;
      DftCombineAt(s, w, v, i);
      assert t[i] == Dft(Evens(s), v)[i] && t[i + h] == Dft(Odds(s), v)[i];
    }
  }

  lemma DftCombineAt(s: seq<int>, w: int, v: int, k: nat)
    requires |s| % 2 == 0 && k < |s| / 2
    requires Cong(w * w, v, MOD)
    requires Cong(Pow(w, |s| / 2), -1, MOD)
    ensures Up(Dft(Evens(s), v)[k], Dft(Odds(s), v)[k], w, k) == Red(DftAt(s, w, k))
    ensures Down(Dft(Evens(s), v)[k], Dft(Odds(s), v)[k], w, k) == Red(DftAt(s, w, k + |s| / 2))
  {
    hide Cong, Pow, DftAt, Red;
    var h := |s| / 2;
    DftSplit(s, w, v, k);
    DftSplit(s, w, v, k + h);
    HalfTurn(w, v, h, k);
    DftPeriodic(Evens(s), v, h, k);
    DftPeriodic(Odds(s), v, h, k);
    ButterflyCong(DftAt(Evens(s), v, k), DftAt(Odds(s), v, k), Pow(w, k), DftAt(s, w, k),
                  DftAt(Evens(s), v, k + h), DftAt(Odds(s), v, k + h), Pow(w, k + h), DftAt(s, w, k + h));
  }

  /** The congruence bookkeeping of one butterfly. */
  lemma ButterflyCong(even: int, odd: int, c: int, whole: int, even': int, odd': int, c': int, whole': int)
    requires Cong(whole, even + c * odd, MOD)
    requires Cong(whole', even' + c' * odd', MOD)
    requires Cong(even', even, MOD) && Cong(odd', odd, MOD) && Cong(c', -c, MOD)
    ensures Red(Red(even) + Red(odd) * c) == Red(whole)
    ensures Red(Red(even) - Red(odd) * c) == Red(whole')
  {
    hide Cong, Red;
    var ev, od := Red(even), Red(odd);
    RedCong(even, even);
    RedCong(odd, odd);
    CongMulLeft(c, od, odd, MOD);
    CongAdd(ev, even, od * c, odd * c, MOD);
    CongTrans(ev + od * c, even + c * odd, whole, MOD);
    CongMul(c', -c, odd', odd, MOD);
    CongAdd(even', even, c' * odd', (-c) * odd, MOD);
    CongTrans(whole', even' + c' * odd', even + (-c) * odd, MOD);
    CongSub(ev, even, od * c, odd * c, MOD);
    assert (-c) * odd == -(odd * c);
    CongTrans(ev - od * c, even - odd * c, whole', MOD);
    RedCong(ev + od * c, whole);
    RedCong(ev - od * c, whole');
  }

  lemma HalfTurn(w: int, v: int, h: nat, k: nat)
    requires Cong(w * w, v, MOD)
    requires Cong(Pow(w, h), -1, MOD)
    ensures Cong(Pow(v, h), 1, MOD)
    ensures Cong(Pow(w, k + h), -Pow(w, k), MOD)
  {
    hide Cong;
    PowCong(w * w, v, h, MOD);
    PowProduct(w, w, h);
    CongMul(Pow(w, h), -1, Pow(w, h), -1, MOD);
    CongTrans(Pow(v, h), Pow(w * w, h), 1, MOD);
    PowAdd(w, k, h);
    CongMulLeft(Pow(w, k), Pow(w, h), -1, MOD);
  }
}
