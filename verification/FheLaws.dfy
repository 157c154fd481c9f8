/**
 What the reference definitions of FheCore amount to, in literal numbers: how
 monomials multiply, that multiplication is additive, and what the sums of masks
 and of key bits contain.
 */
module FheLaws {
  import opened ModArith
  import opened Polynomials
  import opened FheCore

  /** The monomial with coefficient x at degree s. */
  ghost function Only(s: nat, x: int): (p: poly)
    requires s < 512
    ensures forall i {:trigger p[i]} :: 0 <= i < 512 ==> p[i] == if i == s then x else 0
  {
    seq(RING, i requires 0 <= i < RING => if i == s then x else 0)
  }

  lemma OnlyTerms(s: nat, x: int, t: nat, y: int, j: nat)
    requires s < 512 && t < 512 && j < 512
    ensures var f := NegaTerm(Only(s, x), Only(t, y), j);
            && f(s) == (if j == s + t then x * y else if j + 512 == s + t then -(x * y) else 0)
            && forall i :: 0 <= i < 512 && i != s ==> f(i) == 0
  {
    var a, b := Only(s, x), Only(t, y);
    var f := NegaTerm(a, b, j);
    forall i | 0 <= i < 512 && i != s ensures f(i) == 0 {
      MulComm(0, if i <= j then At(b, j - i) else At(b, RING + j - i));
    }
    MulComm(x, 0);
  }

  /** x^512 is -1. */
  lemma MonomialsMultiply(s: nat, x: int, t: nat, y: int, j: nat)
    requires s < 512 && t < 512 && j < 512
    ensures Negacyclic(Only(s, x), Only(t, y))[j]
         == (if j == s + t then x * y else if j + 512 == s + t then -(x * y) else 0) % 0x1_0000_0000_0000_0000
  {
    hide Sum, NegaTerm;
    OnlyTerms(s, x, t, y, j);
    SumSingle(NegaTerm(Only(s, x), Only(t, y), j), RING, s);
  }

  ghost predicate IsSumOf(c: poly, a: poly, b: poly) {
    forall i :: 0 <= i < 512 ==> c[i] == a[i] + b[i]
  }

  lemma TermsAdd(c: poly, a: poly, b: poly, d: poly, j: nat, i: int)
    requires IsSumOf(c, a, b) && j < 512 && 0 <= i < 512
    ensures NegaTerm(c, d, j)(i) == NegaTerm(a, d, j)(i) + NegaTerm(b, d, j)(i)
    ensures NegaTerm(d, c, j)(i) == NegaTerm(d, a, j)(i) + NegaTerm(d, b, j)(i)
  {
    var k := if i <= j then j - i else RING + j - i;
    MulDistributes(a[i], b[i], At(d, k));
    MulDistributes(At(a, k), At(b, k), d[i]);
    MulComm(d[i], At(a, k));
    MulComm(d[i], At(b, k));
    MulComm(d[i], At(c, k));
  }

  /** Multiplication is additive in both factors; with MonomialsMultiply this determines every product. */
  lemma MultiplicationAdds(c: poly, a: poly, b: poly, d: poly, j: nat)
    requires IsSumOf(c, a, b) && j < 512
    ensures Negacyclic(c, d)[j] == (Negacyclic(a, d)[j] + Negacyclic(b, d)[j]) % 0x1_0000_0000_0000_0000
    ensures Negacyclic(d, c)[j] == (Negacyclic(d, a)[j] + Negacyclic(d, b)[j]) % 0x1_0000_0000_0000_0000
  {
    hide Sum, NegaTerm, IsSumOf;
    forall i | 0 <= i < RING
      ensures NegaTerm(c, d, j)(i) == NegaTerm(a, d, j)(i) + NegaTerm(b, d, j)(i)
      ensures NegaTerm(d, c, j)(i) == NegaTerm(d, a, j)(i) + NegaTerm(d, b, j)(i)
    {
      TermsAdd(c, a, b, d, j, i);
    }
    SumAdd(NegaTerm(a, d, j), NegaTerm(b, d, j), NegaTerm(c, d, j), RING);
    SumAdd(NegaTerm(d, a, j), NegaTerm(d, b, j), NegaTerm(d, c, j), RING);
  }

  ghost function ProductCoefficient(masks: seq<poly>, keys: seq<poly>, j: nat): int -> int
    requires j < 512
  {
    t => if 0 <= t < |masks| && t < |keys| then Negacyclic(masks[t], keys[t])[j] else 0
  }

  /** What the masks and keys add up to: coefficient j of each product. */
  lemma {:induction false} MaskSumMeaning(masks: seq<poly>, keys: seq<poly>, n: nat, j: nat)
    requires n <= |masks| && n <= |keys| && j < 512
    ensures MaskSum(masks, keys, n, j) == Sum(ProductCoefficient(masks, keys, j), n)
  {
    hide Negacyclic, MaskSum, Sum;
    MaskSumStep(masks, keys, n, j);
    SumStep(ProductCoefficient(masks, keys, j), n);
    if n > 0 {
      MaskSumMeaning(masks, keys, n - 1, j);
    }
  }

  lemma SumStep(f: int -> int, n: nat)
    ensures Sum(f, n) == if n == 0 then 0 else Sum(f, n - 1) + f(n - 1)
  {
  }

  lemma MaskSumStep(masks: seq<poly>, keys: seq<poly>, n: nat, j: nat)
    requires n <= |masks| && n <= |keys| && j < 512
    ensures n == 0 ==> MaskSum(masks, keys, n, j) == 0
    ensures n > 0 ==>
              MaskSum(masks, keys, n, j) == MaskSum(masks, keys, n - 1, j) + Negacyclic(masks[n - 1], keys[n - 1])[j]
  {
    hide Negacyclic;
  }

  /** Each pair of a mask entry and a key bit adds its product; what has no partner adds nothing. */
  lemma DotGrows(a: seq<int>, s: seq<int>, x: int, y: int)
    ensures Dot([], s) == 0 && Dot(a, []) == 0
    ensures Dot([x] + a, [y] + s) == x * y + Dot(a, s)
  {
    var f, g := DotTerm([x] + a, [y] + s), DotTerm(a, s);
    hide Sum;
    SumZero(DotTerm([], s), 0);
    SumZero(DotTerm(a, []), 0);
    SumOfOne(f);
    forall i | 0 <= i < Shorter(a, s) ensures g(i) == f(1 + i) {
    }
    SumSplit(f, g, 1, Shorter(a, s));
  }
}
