/** Affine point arithmetic of rECp1cG's challenge.py over a prime field. */
module Curve {
  import opened ModArith
  import opened Primes
  import opened MillerRabin
  import opened Options

  datatype Point = Infinity | Affine(x: int, y: int)

  /** NotInvertible is the exception Python raises when a modular inverse does not exist. */
  datatype Result = Ok(point: Point) | NotInvertible

  ghost predicate Canonical(left: Point, p: int) {
    left.Affine? ==> 0 <= left.x < p && 0 <= left.y < p
  }

  ghost predicate OnCurve(left: Point, a: int, b: int, p: int)
    requires p > 0
  {
    left.Affine? ==> Cong(left.y * left.y, left.x * left.x * left.x + a * left.x + b, p)
  }

  /** The least t >= from that inverts v modulo p, as Python's pow(v, -1, p) returns it. */
  function InverseFrom(v: int, p: int, from: nat): (r: Option<int>)
    requires p > 1 && from <= p
    ensures r.Some? ==> 0 <= r.value < p && (v * r.value) % p == 1
    ensures r.None? ==> forall t :: from <= t < p ==> (v * t) % p != 1
    decreases p - from
  {
    if from == p then None
    else if (v * from) % p == 1 then Some(from)
    else InverseFrom(v, p, from + 1)
  }

  function Add(left: Point, right: Point, a: int, p: int): Result
    requires p > 1
  {
    if left.Infinity? then Ok(right)
    else if right.Infinity? then Ok(left)
    else if left.x == right.x && (left.y + right.y) % p == 0 then Ok(Infinity)
    else
      var inv := InverseFrom(if left == right then 2 * left.y else right.x - left.x, p, 0);
      if inv.None? then NotInvertible
      else
        var slope := ((if left == right then 3 * left.x * left.x + a else right.y - left.y) * inv.value) % p;
        var x3 := (slope * slope - left.x - right.x) % p;
        var y3 := (slope * (left.x - x3) - left.y) % p;
        Ok(Affine(x3, y3))
  }

  // ---------------------------------------------------------------------
  // Inverses exist
  // ---------------------------------------------------------------------

  lemma InverseFound(v: int, p: int)
    requires Prime(p) && !Cong(v, 0, p)
    ensures InverseFrom(v, p, 0).Some?
  {
    var x := Inverse(v, p);
    ModSmall(1, p);
    hide Cong;
    CongSelfMod(x, p);
    CongMulLeft(v, x % p, x, p);
    CongTrans(v * (x % p), v * x, 1, p);
  }

  /** Two different points with the same x are opposite, so chords are never vertical here. */
  lemma ChordNotVertical(left: Point, right: Point, a: int, b: int, p: int)
    requires Prime(p) && left.Affine? && right.Affine? && left != right
    requires Canonical(left, p) && Canonical(right, p) && OnCurve(left, a, b, p) && OnCurve(right, a, b, p)
    requires !(left.x == right.x && (left.y + right.y) % p == 0)
    ensures !Cong(right.x - left.x, 0, p)
  {
    if Cong(right.x - left.x, 0, p) {
      hide Cong;
      CongRefl(left.x, p);
      CongAdd(right.x - left.x, 0, left.x, left.x, p);
      CongCanonical(right.x, left.x, p);
      CongTrans(left.y * left.y, left.x * left.x * left.x + a * left.x + b, right.y * right.y, p);
      CongRefl(right.y * right.y, p);
      CongSub(left.y * left.y, right.y * right.y, right.y * right.y, right.y * right.y, p);
      assert (left.y - right.y) * (left.y + right.y) == left.y * left.y - right.y * right.y;
      Euclid(left.y - right.y, left.y + right.y, p);
      ZeroIffDivides(left.y + right.y, p);
      CongRefl(right.y, p);
      CongAdd(left.y - right.y, 0, right.y, right.y, p);
      CongCanonical(left.y, right.y, p);
    }
  }

  lemma TangentNotVertical(left: Point, p: int)
    requires p > 1 && left.Affine? && (left.y + left.y) % p != 0
    ensures !Cong(2 * left.y, 0, p)
  {
    ZeroIffDivides(left.y + left.y, p);
  }

  // ---------------------------------------------------------------------
  // The third intersection
  // ---------------------------------------------------------------------

  /** Cubic minus squared line through (x1, y1) with slope s. */
  function Gap(x: int, s: int, x1: int, y1: int, a: int, b: int): int {
    x * x * x + a * x + b - (s * (x - x1) + y1) * (s * (x - x1) + y1)
  }

  /** What is left of the gap after dividing out the three intersections: a line alpha * x + beta. */
  function Alpha(s: int, x1: int, y1: int, x2: int, a: int): int {
    var c := y1 - s * x1;
    a - 2 * s * c - (x1 * x2 + (x1 + x2) * (s * s - x1 - x2))
  }

  function Beta(s: int, x1: int, y1: int, x2: int, b: int): int {
    var c := y1 - s * x1;
    b - c * c + x1 * x2 * (s * s - x1 - x2)
  }

  lemma GapFactors(x: int, s: int, x1: int, y1: int, x2: int, a: int, b: int)
    ensures Gap(x, s, x1, y1, a, b)
            == (x - x1) * (x - x2) * (x - (s * s - x1 - x2)) + Alpha(s, x1, y1, x2, a) * x + Beta(s, x1, y1, x2, b)
  {
    hide Gap;
    var c, q, sum, prod := y1 - s * x1, s * s, x1 + x2, x1 * x2;
    var w := q - sum;
    GapExpanded(x, s, x1, y1, a, b);
    CubicDivision(x, q, sum, prod, 2 * s * c, c * c, a, b);
    assert x - (s * s - x1 - x2) == x - w;
    assert Alpha(s, x1, y1, x2, a) == a - 2 * s * c - (prod + sum * w);
    assert Beta(s, x1, y1, x2, b) == b - c * c + prod * w;
  }

  lemma GapExpanded(x: int, s: int, x1: int, y1: int, a: int, b: int)
    ensures var c := y1 - s * x1;
            Gap(x, s, x1, y1, a, b) == x * x * x - s * s * (x * x) + (a - 2 * s * c) * x + b - c * c
  {
    var c := y1 - s * x1;
    assert s * (x - x1) + y1 == s * x + c;
    assert (s * x + c) * (s * x + c) == s * s * (x * x) + 2 * s * c * x + c * c;
  }

  /** Dividing the cubic by a quadratic with the given sum and product of roots. */
  lemma CubicDivision(x: int, q: int, sum: int, prod: int, m: int, n: int, a: int, b: int)
    ensures (x * x - sum * x + prod) * (x - (q - sum)) + (a - m - (prod + sum * (q - sum))) * x
            + (b - n + prod * (q - sum))
            == x * x * x - q * (x * x) + (a - m) * x + b - n
  {
    var w, square := q - sum, x * x;
    var r := prod + sum * w;
    ThreeTimes(square, -(sum * x), prod, x);
    ThreeTimes(square, -(sum * x), prod, w);
    MulDistributes(x - w, w, square - sum * x + prod);
    MulAssoc(-sum, x, x);
    MulShuffle(-sum, w, x);
    MulDistributes(a - m - r, r, x);
    MulDistributes(prod, sum * w, x);
    MulDistributes(sum, w, square);
  }

  lemma ThreeTimes(u: int, v: int, t: int, x: int)
    ensures (u + v + t) * x == u * x + v * x + t * x
  {
  }

  lemma AlphaOfTangent(s: int, x1: int, y1: int, a: int)
    ensures Alpha(s, x1, y1, x1, a) == 3 * x1 * x1 + a - s * (2 * y1)
  {
  }

  lemma AlphaOfChord(alpha: int, beta: int, x1: int, x2: int, p: int)
    requires Prime(p) && !Cong(x2 - x1, 0, p)
    requires Cong(alpha * x1 + beta, 0, p) && Cong(alpha * x2 + beta, 0, p)
    ensures Cong(alpha, 0, p)
  {
    hide Cong;
    CongSub(alpha * x2 + beta, 0, alpha * x1 + beta, 0, p);
    MulDistributes(x2 - x1, x1, alpha);
    Euclid(alpha, x2 - x1, p);
  }

  /** A line meeting the cubic at x1 and x2 (twice, if tangent) meets it again at s^2 - x1 - x2. */
  lemma ThirdIntersection(x: int, s: int, x1: int, y1: int, x2: int, a: int, b: int, p: int)
    requires Prime(p)
    requires Cong(Gap(x1, s, x1, y1, a, b), 0, p) && Cong(Gap(x2, s, x1, y1, a, b), 0, p)
    requires !Cong(x2 - x1, 0, p) || (x1 == x2 && Cong(s * (2 * y1), 3 * x1 * x1 + a, p))
    requires Cong(x, s * s - x1 - x2, p)
    ensures Cong(Gap(x, s, x1, y1, a, b), 0, p)
  {
    var alpha, beta := Alpha(s, x1, y1, x2, a), Beta(s, x1, y1, x2, b);
    GapFactors(x1, s, x1, y1, x2, a, b);
    GapFactors(x2, s, x1, y1, x2, a, b);
    GapFactors(x, s, x1, y1, x2, a, b);
    hide Cong, Gap, Alpha, Beta;
    if Cong(x2 - x1, 0, p) {
      AlphaOfTangent(s, x1, y1, a);
      CongRefl(3 * x1 * x1 + a, p);
      CongSub(3 * x1 * x1 + a, 3 * x1 * x1 + a, s * (2 * y1), 3 * x1 * x1 + a, p);
    } else {
      AlphaOfChord(alpha, beta, x1, x2, p);
    }
    RemainderVanishes(x, x1, x2, s * s - x1 - x2, alpha, beta, p);
  }

  lemma RemainderVanishes(x: int, x1: int, x2: int, x3: int, alpha: int, beta: int, p: int)
    requires p > 0 && Cong(x, x3, p)
    requires Cong(alpha, 0, p) && Cong(alpha * x1 + beta, 0, p)
    ensures Cong((x - x1) * (x - x2) * (x - x3) + alpha * x + beta, 0, p)
  {
    hide Cong;
    CongRefl(x3, p);
    CongSub(x, x3, x3, x3, p);
    CongMulLeft((x - x1) * (x - x2), x - x3, 0, p);
    CongMulLeft(x - x1, alpha, 0, p);
    MulDistributes(x - x1, x1, alpha);
    CongAdd(alpha * (x - x1), 0, alpha * x1 + beta, 0, p);
    CongAdd((x - x1) * (x - x2) * (x - x3), 0, alpha * (x - x1) + (alpha * x1 + beta), 0, p);
  }

  /** A point of the curve is a zero of the gap of any line through it. */
  lemma GapAtPoint(x: int, y: int, s: int, x1: int, y1: int, a: int, b: int, p: int)
    requires p > 0
    requires Cong(y * y, x * x * x + a * x + b, p)
    requires Cong(s * (x - x1) + y1, y, p)
    ensures Cong(Gap(x, s, x1, y1, a, b), 0, p)
  {
    hide Cong;
    var l, f := s * (x - x1) + y1, x * x * x + a * x + b;
    CongMul(l, y, l, y, p);
    CongTrans(l * l, y * y, f, p);
    CongRefl(f, p);
    CongSub(f, f, l * l, f, p);
  }

  lemma CurveAtZeroGap(x3: int, y3: int, s: int, x1: int, y1: int, a: int, b: int, p: int)
    requires p > 0
    requires Cong(Gap(x3, s, x1, y1, a, b), 0, p)
    requires y3 == (s * (x1 - x3) - y1) % p
    ensures Cong(y3 * y3, x3 * x3 * x3 + a * x3 + b, p)
  {
    hide Cong;
    var l, f := s * (x3 - x1) + y1, x3 * x3 * x3 + a * x3 + b;
    assert s * (x1 - x3) - y1 == -l by {
      MulDistributes(x1 - x3, x3 - x1, s);
    }
    CongSelfMod(-l, p);
    CongMul(y3, -l, y3, -l, p);
    assert (-l) * (-l) == l * l;
    CongRefl(l * l, p);
    CongAdd(f - l * l, 0, l * l, l * l, p);
    CongTrans(y3 * y3, l * l, f, p);
  }

  /** The slope computed with an inverse satisfies the defining equation of the slope. */
  lemma SlopeEquation(num: int, den: int, inv: int, slope: int, p: int)
    requires p > 1 && (den * inv) % p == 1 && slope == (num * inv) % p
    ensures Cong(slope * den, num, p)
  {
    ModSmall(1, p);
    hide Cong;
    CongSelfMod(num * inv, p);
    CongMulLeft(den, slope, num * inv, p);
    CongMulLeft(num, den * inv, 1, p);
    MulAssoc(num, inv, den);
    MulComm(inv, den);
    CongTrans(slope * den, num * (den * inv), num, p);
  }

  lemma LineThroughSecond(slope: int, x1: int, y1: int, x2: int, y2: int, p: int)
    requires p > 0 && Cong(slope * (x2 - x1), y2 - y1, p)
    ensures Cong(slope * (x2 - x1) + y1, y2, p)
  {
    hide Cong;
    CongRefl(y1, p);
    CongAdd(slope * (x2 - x1), y2 - y1, y1, y1, p);
  }

  lemma LineThroughFirst(slope: int, x1: int, y1: int, p: int)
    requires p > 0
    ensures Cong(slope * (x1 - x1) + y1, y1, p)
  {
    assert slope * 0 == 0;
  }

  /**
   Over a prime field, adding canonical points of the curve never asks for a
   missing inverse, and the sum is a canonical point of the curve.
   */
  lemma AddClosed(left: Point, right: Point, a: int, b: int, p: int)
    requires Prime(p)
    requires Canonical(left, p) && Canonical(right, p) && OnCurve(left, a, b, p) && OnCurve(right, a, b, p)
    ensures Add(left, right, a, p).Ok?
    ensures Canonical(Add(left, right, a, p).point, p) && OnCurve(Add(left, right, a, p).point, a, b, p)
  {
    if left.Affine? && right.Affine? && !(left.x == right.x && (left.y + right.y) % p == 0) {
      var den := if left == right then 2 * left.y else right.x - left.x;
      var num := if left == right then 3 * left.x * left.x + a else right.y - left.y;
      if left == right {
        TangentNotVertical(left, p);
      } else {
        ChordNotVertical(left, right, a, b, p);
      }
      InverseFound(den, p);
      var slope := (num * InverseFrom(den, p, 0).value) % p;
      SlopeEquation(num, den, InverseFrom(den, p, 0).value, slope, p);
      AddClosedAffine(left, right, slope, a, b, p);
    }
  }

  lemma AddClosedAffine(left: Point, right: Point, slope: int, a: int, b: int, p: int)
    requires Prime(p) && left.Affine? && right.Affine?
    requires OnCurve(left, a, b, p) && OnCurve(right, a, b, p)
    requires left == right ==> Cong(slope * (2 * left.y), 3 * left.x * left.x + a, p)
    requires left != right ==> !Cong(right.x - left.x, 0, p) && Cong(slope * (right.x - left.x), right.y - left.y, p)
    ensures var x3 := (slope * slope - left.x - right.x) % p;
            var y3 := (slope * (left.x - x3) - left.y) % p;
            Cong(y3 * y3, x3 * x3 * x3 + a * x3 + b, p)
  {
    hide Cong, Gap;
    var x3 := (slope * slope - left.x - right.x) % p;
    LineThroughFirst(slope, left.x, left.y, p);
    GapAtPoint(left.x, left.y, slope, left.x, left.y, a, b, p);
    if left != right {
      LineThroughSecond(slope, left.x, left.y, right.x, right.y, p);
      GapAtPoint(right.x, right.y, slope, left.x, left.y, a, b, p);
    }
    CongSelfMod(slope * slope - left.x - right.x, p);
    ThirdIntersection(x3, slope, left.x, left.y, right.x, a, b, p);
    CurveAtZeroGap(x3, (slope * (left.x - x3) - left.y) % p, slope, left.x, left.y, a, b, p);
  }

  // ---------------------------------------------------------------------
  // Square roots and random points
  // ---------------------------------------------------------------------

  /** Euler's criterion makes the (p + 1) / 4 power a square root when p = 3 (mod 4). */
  lemma RootByPower(y2: int, p: int)
    requires p > 2 && p % 4 == 3
    requires Pow(y2, (p - 1) / 2) % p == 1
    ensures Cong(Pow(y2, (p + 1) / 4) * Pow(y2, (p + 1) / 4), y2, p)
  {
    ModSmall(1, p);
    hide Pow;
    var e := (p + 1) / 4;
    PowAdd(y2, e, e);
    assert e + e == (p - 1) / 2 + 1;
    PowAdd(y2, (p - 1) / 2, 1);
    PowNext(y2, 1);
    PowZero(y2);
    CongMulLeft(y2, Pow(y2, (p - 1) / 2), 1, p);
  }

  function Rhs(x: int, a: int, b: int): int {
    x * x * x + a * x + b
  }

  /** y, reduced modulo p, squares to f. */
  ghost predicate SquareRoot(y: int, f: int, p: int)
    requires p > 0
  {
    0 <= y < p && Cong(y * y, f, p)
  }

  /** f is a non-zero quadratic residue. */
  ghost predicate Residue(f: int, p: int)
    requires p > 0
  {
    !Cong(f, 0, p) && exists y :: SquareRoot(y, f, p)
  }

  /** The program's test for it, by Euler's criterion. */
  predicate EulerTest(f: int, p: int)
    requires p > 2
  {
    f % p != 0 && Pow(f % p, (p - 1) / 2) % p == 1
  }

  lemma RootOfTested(f: int, p: int)
    requires p > 2 && p % 4 == 3 && EulerTest(f, p)
    ensures SquareRoot(Pow(f % p, (p + 1) / 4) % p, f, p)
  {
    hide Pow;
    RootByPower(f % p, p);
    RootReduced(Pow(f % p, (p + 1) / 4), f % p, f, p);
  }

  lemma SquareTested(y: int, f: int, p: int)
    requires Prime(p) && p > 2 && p % 4 == 3 && !Cong(f, 0, p) && SquareRoot(y, f, p)
    ensures EulerTest(f, p)
  {
    hide Pow, Prime, Cong;
    ZeroIffDivides(f, p);
    var h := (p - 1) / 2;
    if Cong(y, 0, p) {
      CongMulLeft(y, y, 0, p);
      MulComm(y, 0);
      CongSym(y * y, f, p);
      CongTrans(f, y * y, 0, p);
    }
    Fermat(y, p);
    PowProduct(y, y, h);
    PowAdd(y, h, h);
    CongSelfMod(f, p);
    CongSym(y * y, f, p);
    CongTrans(f % p, f, y * y, p);
    PowCong(f % p, y * y, h, p);
    CongTrans(Pow(f % p, h), Pow(y, p - 1), 1, p);
    ModSmall(1, p);
    CongMod(Pow(f % p, h), 1, p);
  }

  lemma CongMod(x: int, y: int, m: int)
    requires m > 0 && Cong(x, y, m)
    ensures x % m == y % m
  {
  }

  /** Modulo a prime that is 3 modulo 4 the test accepts exactly the non-zero squares. */
  lemma EulerTestIff(f: int, p: int)
    requires Prime(p) && p > 2 && p % 4 == 3
    ensures EulerTest(f, p) <==> Residue(f, p)
  {
    hide Pow, Prime;
    ZeroIffDivides(f, p);
    if EulerTest(f, p) {
      RootOfTested(f, p);
    }
    if Residue(f, p) {
      var y :| SquareRoot(y, f, p);
      SquareTested(y, f, p);
    }
  }

  /** The (p + 1) / 4 power is a square root of every square. */
  lemma RootOfResidue(f: int, p: int)
    requires Prime(p) && p > 2 && p % 4 == 3 && Residue(f, p)
    ensures SquareRoot(Pow(f % p, (p + 1) / 4) % p, f, p)
  {
    EulerTestIff(f, p);
    RootOfTested(f, p);
  }

  /** The outcome of one draw: the root itself, or the opposite one if the extra bit is set. */
  function Drawn(x: int, flip: bool, a: int, b: int, p: int): Option<Point>
    requires p > 2
  {
    var root := Pow(Rhs(x, a, b) % p, (p + 1) / 4) % p;
    if EulerTest(Rhs(x, a, b), p) then Some(Affine(x, (if flip then -root else root) % p)) else None
  }

  /** One trial of random_point: a point, or nothing when there is none above x, or only one. */
  method TryPoint(x: int, flip: bool, a: int, b: int, p: int) returns (r: Option<Point>)
    requires p > 2 && p % 4 == 3 && 0 <= x < p
    ensures r == Drawn(x, flip, a, b, p)
    ensures Prime(p) ==> (r.Some? <==> Residue(Rhs(x, a, b), p))
    ensures r.Some? ==> r.value.Affine? && r.value.x == x && Canonical(r.value, p) && OnCurve(r.value, a, b, p)
  {
    if Prime(p) {
      EulerTestIff(Rhs(x, a, b), p);
    }
    hide Pow, Cong, Prime, Residue;
    var y2 := Rhs(x, a, b) % p;
    if y2 == 0 || Pow(y2, (p - 1) / 2) % p != 1 {
      return None;
    }
    var y := Pow(y2, (p + 1) / 4) % p;
    ModSmall(y, p);
    RootByPower(y2, p);
    RootReduced(Pow(y2, (p + 1) / 4), y2, Rhs(x, a, b), p);
    if flip {
      y := (-y) % p;
    }
    r := Some(Affine(x, y));
  }

  lemma RootReduced(t: int, y2: int, f: int, p: int)
    requires p > 0 && y2 == f % p && Cong(t * t, y2, p)
    ensures var y := t % p; Cong(y * y, f, p) && Cong(((-y) % p) * ((-y) % p), f, p)
  {
    hide Cong;
    var y := t % p;
    CongSelfMod(t, p);
    CongMul(y, t, y, t, p);
    CongSelfMod(f, p);
    CongTrans(y * y, t * t, y2, p);
    CongTrans(y * y, y2, f, p);
    var z := (-y) % p;
    CongSelfMod(-y, p);
    CongMul(z, -y, z, -y, p);
    assert (-y) * (-y) == y * y;
    CongTrans(z * z, y * y, f, p);
  }

  /** A draw the loop goes past; modulo a prime, one whose right-hand side is zero or a non-residue. */
  ghost predicate NoPoint(draw: (int, bool), a: int, b: int, p: int)
    requires p > 2
  {
    && Drawn(draw.0, draw.1, a, b, p).None?
    && (Prime(p) ==> !Residue(Rhs(draw.0, a, b), p))
  }

  /** The point of the first draw that has one. */
  ghost function FirstPoint(draws: seq<(int, bool)>, a: int, b: int, p: int): Option<Point>
    requires p > 2
  {
    if draws == [] then None
    else
      var first := Drawn(draws[0].0, draws[0].1, a, b, p);
      if first.Some? then first else FirstPoint(draws[1..], a, b, p)
  }

  /** The first draw that yields a point; the source keeps drawing until one does. */
  method RandomPoint(draws: seq<(int, bool)>, a: int, b: int, p: int) returns (r: Option<Point>)
    requires p > 2 && p % 4 == 3
    requires forall i :: 0 <= i < |draws| ==> 1 <= draws[i].0 < p
    ensures r == FirstPoint(draws, a, b, p)
    ensures r.Some? ==> r.value.Affine? && Canonical(r.value, p) && OnCurve(r.value, a, b, p)
    ensures r.Some? ==> exists i :: && 0 <= i < |draws| && r == Drawn(draws[i].0, draws[i].1, a, b, p)
                                    && forall k :: 0 <= k < i ==> NoPoint(draws[k], a, b, p)
    ensures r.None? ==> forall i :: 0 <= i < |draws| ==> NoPoint(draws[i], a, b, p)
  {
    hide Pow, Cong, Rhs, Prime, Residue, EulerTest, Drawn;
    for i := 0 to |draws|
      invariant forall k :: 0 <= k < i ==> NoPoint(draws[k], a, b, p)
      invariant FirstPoint(draws, a, b, p) == FirstPoint(draws[i..], a, b, p)
    {
      assert draws[i..][1..] == draws[i + 1..];
      r := TryPoint(draws[i].0, draws[i].1, a, b, p);
      if r.Some? {
        return;
      }
    }
    r := None;
  }

  // ---------------------------------------------------------------------
  // Chains of points
  // ---------------------------------------------------------------------

  /** u, u + g, u + 2g, ... as iterated additions. */
  ghost function Multiple(u: Point, g: Point, i: nat, a: int, p: int): Point
    requires p > 1
  {
    if i == 0 then u
    else
      var r := Add(Multiple(u, g, i - 1, a, p), g, a, p);
      if r.Ok? then r.point else Infinity
  }

  lemma {:induction false} MultipleOnCurve(u: Point, g: Point, i: nat, a: int, b: int, p: int)
    requires Prime(p)
    requires Canonical(u, p) && Canonical(g, p) && OnCurve(u, a, b, p) && OnCurve(g, a, b, p)
    ensures Canonical(Multiple(u, g, i, a, p), p) && OnCurve(Multiple(u, g, i, a, p), a, b, p)
    ensures i > 0 ==> Add(Multiple(u, g, i - 1, a, p), g, a, p) == Ok(Multiple(u, g, i, a, p))
  {
    if i > 0 {
      MultipleOnCurve(u, g, i - 1, a, b, p);
      AddClosed(Multiple(u, g, i - 1, a, p), g, a, b, p);
    }
  }

  ghost predicate GoodChain(points: seq<Point>, u: Point, g: Point, a: int, b: int, p: int)
    requires p > 1
  {
    forall i :: 0 <= i < |points| ==> GoodPoint(points[i], i, u, g, a, b, p)
  }

  /** Entry i of the chain is u + i * g, an affine canonical point of the curve. */
  ghost predicate GoodPoint(left: Point, i: nat, u: Point, g: Point, a: int, b: int, p: int)
    requires p > 1
  {
    left == Multiple(u, g, i, a, p) && left.Affine? && Canonical(left, p) && OnCurve(left, a, b, p)
  }

  lemma GoodChainAppend(points: seq<Point>, r: Point, u: Point, g: Point, a: int, b: int, p: int)
    requires p > 1 && GoodChain(points, u, g, a, b, p) && GoodPoint(r, |points|, u, g, a, b, p)
    ensures GoodChain(points + [r], u, g, a, b, p)
  {
    hide GoodPoint;
  }

  lemma PrimeAboveOne(p: int)
    requires Prime(p)
    ensures p > 1
  {
  }

  lemma GoodChainNext(points: seq<Point>, u: Point, g: Point, a: int, b: int, p: int)
    requires Prime(p) && points != [] && GoodChain(points, u, g, a, b, p)
    requires Canonical(u, p) && Canonical(g, p) && OnCurve(u, a, b, p) && OnCurve(g, a, b, p)
    ensures Add(points[|points| - 1], g, a, p) == Ok(Multiple(u, g, |points|, a, p))
  {
    PrimeAboveOne(p);
    hide *;
    MultipleOnCurve(u, g, |points|, a, b, p);
  }

  lemma GoodChainStep(points: seq<Point>, u: Point, g: Point, a: int, b: int, p: int)
    requires Prime(p) && points != [] && GoodChain(points, u, g, a, b, p)
    requires Canonical(u, p) && Canonical(g, p) && OnCurve(u, a, b, p) && OnCurve(g, a, b, p)
    requires Multiple(u, g, |points|, a, p).Affine?
    ensures GoodChain(points + [Multiple(u, g, |points|, a, p)], u, g, a, b, p)
  {
    PrimeAboveOne(p);
    hide *;
    MultipleOnCurve(u, g, |points|, a, b, p);
    GoodChainAppend(points, Multiple(u, g, |points|, a, p), u, g, a, b, p);
  }

  /** Every entry so far is u + i * g; over a prime field all of them are points of the curve. */
  ghost predicate Chained(points: seq<Point>, u: Point, g: Point, a: int, b: int, p: int)
    requires p > 1
  {
    && (forall i :: 0 <= i < |points| ==> points[i].Affine? && points[i] == Multiple(u, g, i, a, p))
    && (Prime(p) ==> GoodChain(points, u, g, a, b, p))
  }

  lemma ChainStarts(u: Point, g: Point, a: int, b: int, p: int)
    requires p > 1 && u.Affine? && Canonical(u, p) && OnCurve(u, a, b, p)
    ensures Chained([u], u, g, a, b, p)
  {
    hide Prime, Canonical, OnCurve;
  }

  lemma ChainGrows(points: seq<Point>, r: Point, u: Point, g: Point, a: int, b: int, p: int)
    requires p > 1 && points != [] && Chained(points, u, g, a, b, p)
    requires Canonical(u, p) && Canonical(g, p) && OnCurve(u, a, b, p) && OnCurve(g, a, b, p)
    requires Add(points[|points| - 1], g, a, p) == Ok(r)
    ensures r == Multiple(u, g, |points|, a, p)
    ensures r.Affine? ==> Chained(points + [r], u, g, a, b, p)
  {
    hide Prime, Canonical, OnCurve, Add, GoodChain;
    if Prime(p) && r.Affine? {
      GoodChainStep(points, u, g, a, b, p);
    }
  }

  /** The chain after at most n more additions of g. */
  ghost function ChainFrom(points: seq<Point>, g: Point, n: nat, a: int, p: int): Option<seq<Point>>
    requires p > 1 && points != []
    decreases n
  {
    if n == 0 then Some(points)
    else
      match Add(points[|points| - 1], g, a, p)
      case NotInvertible => None
      case Ok(Infinity) => Some(points)
      case Ok(next) => ChainFrom(points + [next], g, n - 1, a, p)
  }

  /** Builds the chain and stops early at the point at infinity. None is the exception of a missing inverse, which
      a prime modulus rules out. */
  method PointChain(u0: Point, g: Point, k: nat, a: int, b: int, p: int) returns (r: Option<seq<Point>>)
    requires p > 1 && k >= 1
    requires u0.Affine? && Canonical(u0, p) && OnCurve(u0, a, b, p)
    requires g.Affine? && Canonical(g, p) && OnCurve(g, a, b, p)
    ensures r == ChainFrom([u0], g, k - 1, a, p)
    ensures Prime(p) ==> r.Some?
    ensures r.None? ==> exists i: nat :: i < k - 1 && Add(Multiple(u0, g, i, a, p), g, a, p).NotInvertible?
    ensures r.Some? ==> 1 <= |r.value| <= k && Chained(r.value, u0, g, a, b, p)
    ensures r.Some? && |r.value| < k ==> Multiple(u0, g, |r.value|, a, p) == Infinity
  {
    hide Add, OnCurve, Canonical, Prime, GoodChain, Multiple;
    ChainStarts(u0, g, a, b, p);
    hide Chained;
    var u := u0;
    var points := [u];
    for i := 0 to k - 1
      invariant |points| == i + 1 && u == points[i]
      invariant ChainFrom([u0], g, k - 1, a, p) == ChainFrom(points, g, k - 1 - i, a, p)
      invariant Chained(points, u0, g, a, b, p)
    {
      var sum := Add(u, g, a, p);
      if sum.NotInvertible? {
        ChainNeverFails(points, u0, g, a, b, p);
        ChainedLast(points, u0, g, a, b, p);
        return None;
      }
      u := sum.point;
      ChainGrows(points, u, u0, g, a, b, p);
      if u.Infinity? {
        return Some(points);
      }
      points := points + [u];
    }
    r := Some(points);
  }

  lemma ChainedLast(points: seq<Point>, u: Point, g: Point, a: int, b: int, p: int)
    requires p > 1 && points != [] && Chained(points, u, g, a, b, p)
    ensures points[|points| - 1] == Multiple(u, g, |points| - 1, a, p)
  {
    hide Multiple, GoodChain;
  }

  lemma ChainNeverFails(points: seq<Point>, u: Point, g: Point, a: int, b: int, p: int)
    requires p > 1 && points != [] && Chained(points, u, g, a, b, p)
    requires Canonical(u, p) && Canonical(g, p) && OnCurve(u, a, b, p) && OnCurve(g, a, b, p)
    ensures Prime(p) ==> Add(points[|points| - 1], g, a, p).Ok?
  {
    hide Prime, Canonical, OnCurve, Add, GoodChain;
    if Prime(p) {
      GoodChainNext(points, u, g, a, b, p);
    }
  }

  // ---------------------------------------------------------------------
  // The whole instance
  // ---------------------------------------------------------------------

  datatype Instance = Instance(p: int, a: int, b: int, g: Point, u: Point, points: seq<Point>)

  /** randrange(1, p), from an unbounded draw. */
  function Ranged(draw: nat, p: int): (x: int)
    requires p > 2
    ensures 1 <= x < p && (draw < p - 1 ==> x == draw + 1)
  {
    RangedDraw(draw, p);
    1 + draw % (p - 1)
  }

  lemma RangedDraw(draw: nat, p: int)
    requires p > 2
    ensures 0 <= draw % (p - 1) < p - 1 && (draw < p - 1 ==> draw % (p - 1) == draw)
  {
    if draw < p - 1 {
      ModSmall(draw, p - 1);
    }
  }

  function PointDraws(draws: seq<(nat, bool)>, p: int): (r: seq<(int, bool)>)
    requires p > 2
    ensures |r| == |draws| && forall i :: 0 <= i < |r| ==> 1 <= r[i].0 < p
    ensures forall i :: 0 <= i < |r| ==> r[i].1 == draws[i].1 && (draws[i].0 < p - 1 ==> r[i].0 == draws[i].0 + 1)
  {
    seq(|draws|, i requires 0 <= i < |draws| => (Ranged(draws[i].0, p), draws[i].1))
  }

  predicate Singular(a: int, b: int, p: int)
    requires p > 0
  {
    (4 * a * a * a + 27 * b * b) % p == 0
  }

  predicate DistinctX(points: seq<Point>) {
    forall i, j :: 0 <= i < j < |points| && points[i].Affine? && points[j].Affine? ==> points[i].x != points[j].x
  }

  ghost predicate IsDrawn(left: Point, a: int, b: int, p: int)
    requires p > 1
  {
    left.Affine? && Canonical(left, p) && OnCurve(left, a, b, p)
  }

  /** What main has when its loops are done: k points with different x, over a non-singular curve; if the modulus
      is prime, all of them u + i * g on the curve. */
  ghost predicate Sound(s: Instance, k: nat) {
    && s.p > 2 && s.p % 4 == 3 && Accepts(s.p) && !Singular(s.a, s.b, s.p)
    && IsDrawn(s.g, s.a, s.b, s.p) && IsDrawn(s.u, s.a, s.b, s.p)
    && |s.points| == k && DistinctX(s.points) && Chained(s.points, s.u, s.g, s.a, s.b, s.p)
  }

  /** What one round gives: two points and the chain they start; None if the draws for a point run out or an inverse
      is missing. */
  ghost function RoundResult(round: (seq<(nat, bool)>, seq<(nat, bool)>), k: nat, a: int, b: int, p: int)
    : Option<(Point, Point, seq<Point>)>
    requires p > 2 && k >= 1
  {
    var g :- FirstPoint(PointDraws(round.0, p), a, b, p);
    var u :- FirstPoint(PointDraws(round.1, p), a, b, p);
    var points :- ChainFrom([u], g, k - 1, a, p);
    Some((g, u, points))
  }

  predicate Complete(chain: (Point, Point, seq<Point>), k: nat) {
    |chain.2| == k && DistinctX(chain.2)
  }

  /** A round the loop goes past. */
  ghost predicate Passed(round: (seq<(nat, bool)>, seq<(nat, bool)>), k: nat, a: int, b: int, p: int)
    requires p > 2 && k >= 1
  {
    var r := RoundResult(round, k, a, b, p);
    r.Some? && !Complete(r.value, k)
  }

  /** The first complete chain, with no round before it that got stuck. */
  ghost predicate FirstChain(rounds: seq<(seq<(nat, bool)>, seq<(nat, bool)>)>, k: nat, a: int, b: int, p: int,
                             chain: (Point, Point, seq<Point>))
    requires p > 2 && k >= 1
  {
    exists i :: && 0 <= i < |rounds| && RoundResult(rounds[i], k, a, b, p) == Some(chain) && Complete(chain, k)
                && forall j :: 0 <= j < i ==> Passed(rounds[j], k, a, b, p)
  }

  /** Every round is passed, or a round gets stuck after rounds that are. */
  ghost predicate NoChain(rounds: seq<(seq<(nat, bool)>, seq<(nat, bool)>)>, k: nat, a: int, b: int, p: int)
    requires p > 2 && k >= 1
  {
    exists i :: && 0 <= i <= |rounds| && (i < |rounds| ==> RoundResult(rounds[i], k, a, b, p).None?)
                && forall j :: 0 <= j < i ==> Passed(rounds[j], k, a, b, p)
  }

  /** Points until a chain is complete; None when the draws run out or an inverse is missing. */
  method DrawChain(rounds: seq<(seq<(nat, bool)>, seq<(nat, bool)>)>, k: nat, a: int, b: int, p: int)
    returns (r: Option<(Point, Point, seq<Point>)>)
    requires p > 2 && p % 4 == 3 && k >= 1
    ensures if r.Some? then FirstChain(rounds, k, a, b, p, r.value) else NoChain(rounds, k, a, b, p)
    ensures r.Some? ==> IsDrawn(r.value.0, a, b, p) && IsDrawn(r.value.1, a, b, p)
    ensures r.Some? ==> |r.value.2| == k && DistinctX(r.value.2) && Chained(r.value.2, r.value.1, r.value.0, a, b, p)
  {
    hide OnCurve, Canonical, Prime, Chained, Multiple, Residue, Rhs, FirstPoint, ChainFrom, DistinctX, PointDraws;
    for i := 0 to |rounds|
      invariant forall j :: 0 <= j < i ==> Passed(rounds[j], k, a, b, p)
    {
      var g :- RandomPoint(PointDraws(rounds[i].0, p), a, b, p);
      var u :- RandomPoint(PointDraws(rounds[i].1, p), a, b, p);
      var points :- PointChain(u, g, k, a, b, p);
      assert RoundResult(rounds[i], k, a, b, p) == Some((g, u, points));
      if |points| == k && DistinctX(points) {
        return Some((g, u, points));
      }
    }
    r := None;
  }

  /** Modulo a prime only running out of draws for a point can stop the loop. */
  lemma StuckRound(round: (seq<(nat, bool)>, seq<(nat, bool)>), k: nat, a: int, b: int, p: int)
    requires Prime(p) && p > 2 && p % 4 == 3 && k >= 1
    ensures RoundResult(round, k, a, b, p).None? <==>
            || FirstPoint(PointDraws(round.0, p), a, b, p).None?
            || FirstPoint(PointDraws(round.1, p), a, b, p).None?
  {
    hide Prime, FirstPoint, ChainFrom, OnCurve, Canonical;
    var g, u := FirstPoint(PointDraws(round.0, p), a, b, p), FirstPoint(PointDraws(round.1, p), a, b, p);
    if g.Some? && u.Some? {
      FirstPointDrawn(PointDraws(round.0, p), a, b, p);
      FirstPointDrawn(PointDraws(round.1, p), a, b, p);
      ChainStarts(u.value, g.value, a, b, p);
      ChainCompletes([u.value], u.value, g.value, k - 1, a, b, p);
    }
  }

  lemma DrawnPoint(x: int, flip: bool, a: int, b: int, p: int)
    requires p > 2 && p % 4 == 3 && 0 <= x < p && Drawn(x, flip, a, b, p).Some?
    ensures IsDrawn(Drawn(x, flip, a, b, p).value, a, b, p)
  {
    var y2 := Rhs(x, a, b) % p;
    var root := Pow(y2, (p + 1) / 4) % p;
    hide Pow, Cong;
    ModSmall(root, p);
    RootByPower(y2, p);
    RootReduced(Pow(y2, (p + 1) / 4), y2, Rhs(x, a, b), p);
  }

  lemma {:induction false} FirstPointDrawn(draws: seq<(int, bool)>, a: int, b: int, p: int)
    requires p > 2 && p % 4 == 3 && FirstPoint(draws, a, b, p).Some?
    requires forall i :: 0 <= i < |draws| ==> 1 <= draws[i].0 < p
    ensures IsDrawn(FirstPoint(draws, a, b, p).value, a, b, p)
  {
    hide Drawn, IsDrawn;
    if Drawn(draws[0].0, draws[0].1, a, b, p).Some? {
      DrawnPoint(draws[0].0, draws[0].1, a, b, p);
    } else {
      FirstPointDrawn(draws[1..], a, b, p);
    }
  }

  lemma {:induction false} ChainCompletes(points: seq<Point>, u: Point, g: Point, n: nat, a: int, b: int, p: int)
    requires Prime(p) && p > 2 && points != [] && Chained(points, u, g, a, b, p)
    requires Canonical(u, p) && Canonical(g, p) && OnCurve(u, a, b, p) && OnCurve(g, a, b, p)
    ensures ChainFrom(points, g, n, a, p).Some?
    decreases n
  {
    hide Prime, OnCurve, Canonical, Add, Chained, GoodChain;
    if n > 0 {
      ChainNeverFails(points, u, g, a, b, p);
      var next := Add(points[|points| - 1], g, a, p).point;
      ChainGrows(points, next, u, g, a, b, p);
      if next.Affine? {
        ChainCompletes(points + [next], u, g, n - 1, a, b, p);
      }
    }
  }

  ghost predicate FirstCurve(curves: seq<(nat, nat)>, a: int, b: int, p: int)
    requires p > 2
  {
    exists i :: && 0 <= i < |curves| && a == Ranged(curves[i].0, p) && b == Ranged(curves[i].1, p) && !Singular(a, b, p)
                && forall j :: 0 <= j < i ==> IsSingular(curves[j], p)
  }

  predicate IsSingular(curve: (nat, nat), p: int)
    requires p > 2
  {
    Singular(Ranged(curve.0, p), Ranged(curve.1, p), p)
  }

  /** The generator: a modulus, a curve, two points and the chain, from arbitrary draws: each the first that passes
      its test. */
  method Generate(bits: nat, primes: seq<nat>, curves: seq<(nat, nat)>,
                  rounds: seq<(seq<(nat, bool)>, seq<(nat, bool)>)>, k: nat)
    returns (r: Option<Instance>)
    requires bits > 0 && k >= 1
    ensures r.Some? ==> Sound(r.value, k)
    ensures r.Some? ==>
              var s := r.value;
              && FirstPrime(primes, bits, s.p) && FirstCurve(curves, s.a, s.b, s.p)
              && FirstChain(rounds, k, s.a, s.b, s.p, (s.g, s.u, s.points))
    ensures r.None? ==>
              || (forall i :: 0 <= i < |primes| ==> !Accepts(Candidate(primes[i], bits)))
              || exists p :: p > 2 && FirstPrime(primes, bits, p) && NoInstance(curves, rounds, k, p)
  {
    hide Accepts, Chained, DistinctX, Singular, IsDrawn, FirstChain, NoChain, Ranged;
    var p :- MakePrime(bits, primes);
    for i := 0 to |curves|
      invariant forall j :: 0 <= j < i ==> IsSingular(curves[j], p)
    {
      var a, b := Ranged(curves[i].0, p), Ranged(curves[i].1, p);
      if !Singular(a, b, p) {
        assert FirstCurve(curves, a, b, p);
        var chain := DrawChain(rounds, k, a, b, p);
        if chain.None? {
          return None;
        }
        return Some(Instance(p, a, b, chain.value.0, chain.value.1, chain.value.2));
      }
    }
    r := None;
  }

  /** Every curve drawn is singular, or no chain is found over the first that is not. */
  ghost predicate NoInstance(curves: seq<(nat, nat)>, rounds: seq<(seq<(nat, bool)>, seq<(nat, bool)>)>, k: nat, p: int)
    requires p > 2 && k >= 1
  {
    || (forall j :: 0 <= j < |curves| ==> IsSingular(curves[j], p))
    || exists a, b :: FirstCurve(curves, a, b, p) && NoChain(rounds, k, a, b, p)
  }
}
