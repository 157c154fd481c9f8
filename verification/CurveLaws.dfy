/**
 What point addition is: the chord or tangent through the operands meets the
 curve again in the reflected sum. The equations name the sum uniquely, so the
 operation is commutative, and it has its identity and opposites.
 */
module CurveLaws {
  import opened ModArith
  import opened Primes
  import opened Options
  import opened Curve

  ghost predicate PointOf(u: Point, a: int, b: int, p: int)
    requires p > 1
  {
    Canonical(u, p) && OnCurve(u, a, b, p)
  }

  /** The same x, and y coordinates that add up to zero. */
  ghost predicate Opposite(u: Point, v: Point, p: int)
    requires p > 1
  {
    u.Affine? && v.Affine? && u.x == v.x && Cong(u.y + v.y, 0, p)
  }

  /** Slope times run is rise, for the chord or, at a single point, the tangent. */
  function Run(u: Point, v: Point): int
    requires u.Affine? && v.Affine?
  {
    if u == v then 2 * u.y else v.x - u.x
  }

  function Rise(u: Point, v: Point, a: int): int
    requires u.Affine? && v.Affine?
  {
    if u == v then 3 * u.x * u.x + a else v.y - u.y
  }

  /** The three x coordinates add up to the squared slope, and the reflected point lies on the line through u. */
  ghost predicate IsSum(u: Point, v: Point, r: Point, a: int, p: int)
    requires p > 1 && u.Affine? && v.Affine?
  {
    && r.Affine? && Canonical(r, p)
    && Cong((r.x + u.x + v.x) * (Run(u, v) * Run(u, v)), Rise(u, v, a) * Rise(u, v, a), p)
    && Cong((r.y + u.y) * Run(u, v), Rise(u, v, a) * (u.x - r.x), p)
  }

  lemma RunNotZero(u: Point, v: Point, a: int, b: int, p: int)
    requires Prime(p) && u.Affine? && v.Affine? && PointOf(u, a, b, p) && PointOf(v, a, b, p) && !Opposite(u, v, p)
    ensures !Cong(Run(u, v), 0, p)
  {
    ZeroIffDivides(u.y + v.y, p);
    if u == v {
      TangentNotVertical(u, p);
    } else {
      ChordNotVertical(u, v, a, b, p);
    }
  }

  lemma SumEquations(u: Point, v: Point, s: int, x3: int, y3: int, d: int, n: int, p: int)
    requires p > 1 && u.Affine? && v.Affine? && Cong(s * d, n, p)
    requires Cong(x3, s * s - u.x - v.x, p) && Cong(y3, s * (u.x - x3) - u.y, p)
    ensures Cong((x3 + u.x + v.x) * (d * d), n * n, p)
    ensures Cong((y3 + u.y) * d, n * (u.x - x3), p)
  {
    hide Cong;
    var x, y := u.x + v.x, u.x - x3;
    CongRefl(x, p);
    CongAdd(x3, s * s - u.x - v.x, x, x, p);
    CongMulLeft(d * d, x3 + x, s * s, p);
    CongMul(s * d, n, s * d, n, p);
    MulInterchange(s, d, s, d);
    MulComm(d * d, x3 + x);
    MulComm(s * s, d * d);
    CongTrans((x3 + x) * (d * d), (s * s) * (d * d), n * n, p);
    CongRefl(u.y, p);
    CongAdd(y3, s * y - u.y, u.y, u.y, p);
    CongMulLeft(d, y3 + u.y, s * y, p);
    CongMulLeft(y, s * d, n, p);
    MulComm(d, y3 + u.y);
    MulShuffle(s, d, y);
    MulAssoc(d, s, y);
    MulComm(s, d);
    CongTrans((y3 + u.y) * d, d * (s * y), n * y, p);
  }

  lemma AddIsSum(u: Point, v: Point, a: int, b: int, p: int)
    requires Prime(p) && u.Affine? && v.Affine? && PointOf(u, a, b, p) && PointOf(v, a, b, p) && !Opposite(u, v, p)
    ensures Add(u, v, a, p).Ok? && IsSum(u, v, Add(u, v, a, p).point, a, p)
  {
    ZeroIffDivides(u.y + v.y, p);
    RunNotZero(u, v, a, b, p);
    var d, n := Run(u, v), Rise(u, v, a);
    InverseFound(d, p);
    var s := (n * InverseFrom(d, p, 0).value) % p;
    SlopeEquation(n, d, InverseFrom(d, p, 0).value, s, p);
    var x3 := (s * s - u.x - v.x) % p;
    CongSelfMod(s * s - u.x - v.x, p);
    CongSelfMod(s * (u.x - x3) - u.y, p);
    hide Cong;
    SumEquations(u, v, s, x3, (s * (u.x - x3) - u.y) % p, d, n, p);
  }

  /** The equations have one solution. */
  lemma SumUnique(u: Point, v: Point, r: Point, t: Point, a: int, p: int)
    requires Prime(p) && u.Affine? && v.Affine? && !Cong(Run(u, v), 0, p)
    requires IsSum(u, v, r, a, p) && IsSum(u, v, t, a, p)
    ensures r == t
  {
    hide Cong, Run, Rise;
    var d, n, x := Run(u, v), Rise(u, v, a), u.x + v.x;
    SameTimes(d, r.x + u.x + v.x, t.x + u.x + v.x, n * n, p);
    SameAfter(r.x, t.x, x, p);
    SameFactor(d, r.y + u.y, t.y + u.y, n * (u.x - r.x), p);
    SameAfter(r.y, t.y, u.y, p);
  }

  lemma SameTimes(d: int, x: int, y: int, z: int, p: int)
    requires Prime(p) && !Cong(d, 0, p) && Cong(x * (d * d), z, p) && Cong(y * (d * d), z, p)
    ensures Cong(x, y, p)
  {
    hide Cong;
    MulAssoc(x, d, d);
    MulAssoc(y, d, d);
    SameFactor(d, x * d, y * d, z, p);
    CongRefl(y * d, p);
    SameFactor(d, x, y, y * d, p);
  }

  lemma SameFactor(d: int, x: int, y: int, z: int, p: int)
    requires Prime(p) && !Cong(d, 0, p) && Cong(x * d, z, p) && Cong(y * d, z, p)
    ensures Cong(x, y, p)
  {
    hide Cong;
    CongSym(y * d, z, p);
    CongTrans(x * d, z, y * d, p);
    MulComm(x, d);
    MulComm(y, d);
    Cancel(d, x, y, p);
  }

  lemma SameAfter(x: int, y: int, c: int, p: int)
    requires p > 1 && 0 <= x < p && 0 <= y < p && Cong(x + c, y + c, p)
    ensures x == y
  {
    hide Cong;
    CongRefl(c, p);
    CongSub(x + c, y + c, c, c, p);
    CongCanonical(x, y, p);
  }

  /** Two points that are not opposite have exactly the sum the equations describe. */
  lemma SumIff(u: Point, v: Point, r: Point, a: int, b: int, p: int)
    requires Prime(p) && u.Affine? && v.Affine? && PointOf(u, a, b, p) && PointOf(v, a, b, p) && !Opposite(u, v, p)
    ensures Add(u, v, a, p) == Ok(r) <==> IsSum(u, v, r, a, p)
  {
    AddIsSum(u, v, a, b, p);
    RunNotZero(u, v, a, b, p);
    hide Cong, IsSum, Add, Run;
    if IsSum(u, v, r, a, p) {
      SumUnique(u, v, r, Add(u, v, a, p).point, a, p);
    }
  }

  /** Opposite points add up to the identity, and only they do. */
  lemma OppositeIff(u: Point, v: Point, a: int, b: int, p: int)
    requires Prime(p) && u.Affine? && v.Affine? && PointOf(u, a, b, p) && PointOf(v, a, b, p)
    ensures Add(u, v, a, p) == Ok(Infinity) <==> Opposite(u, v, p)
  {
    ZeroIffDivides(u.y + v.y, p);
    if !Opposite(u, v, p) {
      AddIsSum(u, v, a, b, p);
    }
  }

  lemma Identity(u: Point, a: int, p: int)
    requires p > 1
    ensures Add(u, Infinity, a, p) == Ok(u) && Add(Infinity, u, a, p) == Ok(u)
  {
  }

  /** The line through two points does not depend on their order. */
  lemma SumSwaps(u: Point, v: Point, r: Point, a: int, p: int)
    requires p > 1 && u.Affine? && v.Affine? && IsSum(u, v, r, a, p)
    ensures IsSum(v, u, r, a, p)
  {
    if u != v {
      var d, n := v.x - u.x, v.y - u.y;
      Negatives(d, d);
      Negatives(n, n);
      assert r.x + u.x + v.x == r.x + v.x + u.x;
      hide Cong;
      LineMoves(u.x, u.y, d, n, r.x, r.y, p);
      CongRefl(0, p);
      CongSub(0, 0, (r.y + v.y) * d, n * (v.x - r.x), p);
      Negatives(r.y + v.y, d);
      Negatives(v.x - r.x, n);
      MulComm(v.x - r.x, n);
      MulComm(v.x - r.x, -n);
    }
  }

  /** A point on the reflected line through (x, y) is on that through (x + d, y + n). */
  lemma LineMoves(x: int, y: int, d: int, n: int, rx: int, ry: int, p: int)
    requires p > 1 && Cong((ry + y) * d, n * (x - rx), p)
    ensures Cong((ry + (y + n)) * d, n * (x + d - rx), p)
  {
    hide Cong;
    CongRefl(n * d, p);
    CongAdd((ry + y) * d, n * (x - rx), n * d, n * d, p);
    MulDistributes(ry + y, n, d);
    MulDistributes(x - rx, d, n);
  }

  lemma Negatives(x: int, d: int)
    ensures x * (-d) == 0 - x * d && (-x) * (-d) == x * d
  {
  }

  lemma AddCommutes(u: Point, v: Point, a: int, b: int, p: int)
    requires Prime(p) && PointOf(u, a, b, p) && PointOf(v, a, b, p)
    ensures Add(u, v, a, p) == Add(v, u, a, p)
  {
    if u.Infinity? || v.Infinity? {
      Identity(u, a, p);
      Identity(v, a, p);
    } else if Opposite(u, v, p) {
      OppositeIff(u, v, a, b, p);
      OppositeIff(v, u, a, b, p);
    } else {
      AddIsSum(u, v, a, b, p);
      hide Cong, IsSum, Add;
      SumSwaps(u, v, Add(u, v, a, p).point, a, p);
      SumIff(v, u, Add(u, v, a, p).point, a, b, p);
    }
  }

  /** A chain whose every point is the sum of the one before it and g. */
  ghost predicate Steps(points: seq<Point>, g: Point, a: int, p: int)
    requires p > 1 && g.Affine?
  {
    && (forall i :: 0 <= i < |points| ==> points[i].Affine?)
    && forall i :: 0 <= i < |points| - 1 ==> IsSum(points[i], g, points[i + 1], a, p)
  }

  lemma StepsGrow(points: seq<Point>, next: Point, g: Point, a: int, p: int)
    requires p > 1 && g.Affine? && points != [] && Steps(points, g, a, p)
    requires next.Affine? && IsSum(points[|points| - 1], g, next, a, p)
    ensures Steps(points + [next], g, a, p)
  {
    hide IsSum;
  }

  lemma {:induction false} ChainSteps(points: seq<Point>, g: Point, n: nat, a: int, b: int, p: int)
    requires Prime(p) && g.Affine? && PointOf(g, a, b, p)
    requires points != [] && Steps(points, g, a, p) && PointOf(points[|points| - 1], a, b, p)
    ensures ChainFrom(points, g, n, a, p).Some?
    ensures var r := ChainFrom(points, g, n, a, p).value;
            && points <= r && |r| <= |points| + n && Steps(r, g, a, p)
            && (|r| < |points| + n ==> Opposite(r[|r| - 1], g, p))
    decreases n
  {
    hide Add, IsSum, Opposite, Steps;
    var last := points[|points| - 1];
    StepsAffine(points, g, a, p);
    if n > 0 {
      OppositeIff(last, g, a, b, p);
      if !Opposite(last, g, p) {
        AddIsSum(last, g, a, b, p);
        AddClosed(last, g, a, b, p);
        var next := Add(last, g, a, p).point;
        SumAffine(last, g, next, a, p);
        StepsGrow(points, next, g, a, p);
        ChainSteps(points + [next], g, n - 1, a, b, p);
      }
    }
  }

  lemma StepsAffine(points: seq<Point>, g: Point, a: int, p: int)
    requires p > 1 && g.Affine? && Steps(points, g, a, p)
    ensures forall i :: 0 <= i < |points| ==> points[i].Affine?
  {
  }

  lemma SumAffine(u: Point, v: Point, r: Point, a: int, p: int)
    requires p > 1 && u.Affine? && v.Affine? && IsSum(u, v, r, a, p)
    ensures r.Affine?
  {
  }

  /** Modulo a prime the chain starts at u and adds g in every step; it is shorter than k only if its last point is
      the opposite of g. */
  lemma ChainOfSums(u: Point, g: Point, k: nat, a: int, b: int, p: int)
    requires Prime(p) && k >= 1 && u.Affine? && g.Affine? && PointOf(u, a, b, p) && PointOf(g, a, b, p)
    ensures ChainFrom([u], g, k - 1, a, p).Some?
    ensures var points := ChainFrom([u], g, k - 1, a, p).value;
            && 1 <= |points| <= k && points[0] == u
            && (forall i :: 0 <= i < |points| ==> points[i].Affine?)
            && (forall i :: 0 <= i < |points| - 1 ==> IsSum(points[i], g, points[i + 1], a, p))
            && (|points| < k ==> Opposite(points[|points| - 1], g, p))
  {
    hide IsSum, Opposite, PointOf, ChainFrom;
    ChainSteps([u], g, k - 1, a, b, p);
  }

  /** A chord and a tangent on y^2 = x^3 + x + 1 modulo 7. */
  lemma KnownSums()
    ensures Add(Affine(0, 1), Affine(2, 2), 1, 7) == Ok(Affine(0, 6))
    ensures Add(Affine(0, 1), Affine(0, 1), 1, 7) == Ok(Affine(2, 5))
  {
    assert InverseFrom(2, 7, 4) == Some(4) && InverseFrom(2, 7, 3) == Some(4) && InverseFrom(2, 7, 2) == Some(4);
    assert InverseFrom(2, 7, 1) == Some(4) && InverseFrom(2, 7, 0) == Some(4);
  }

  // ---------------------------------------------------------------------
  // Which root a draw yields
  // ---------------------------------------------------------------------

  /** Of the two roots the power yields the one that is a square itself. */
  lemma PowerRootIsSquare(f: int, p: int)
    requires Prime(p) && p > 2 && p % 4 == 3 && EulerTest(f, p)
    ensures Residue(Pow(f % p, (p + 1) / 4) % p, p)
  {
    hide Pow, Prime, Cong;
    var e := (p + 1) / 4;
    var power := Pow(f % p, e);
    var root := power % p;
    EulerTestIff(f, p);
    RootOfTested(f, p);
    var w :| SquareRoot(w, f, p);
    CongSelfMod(f, p);
    CongSym(f % p, f, p);
    CongTrans(w * w, f, f % p, p);
    PowCong(w * w, f % p, e, p);
    PowProduct(w, w, e);
    var t := Pow(w, e) % p;
    CongSelfMod(Pow(w, e), p);
    CongMul(t, Pow(w, e), t, Pow(w, e), p);
    CongTrans(t * t, Pow(w, e) * Pow(w, e), power, p);
    CongSelfMod(power, p);
    CongSym(root, power, p);
    CongTrans(t * t, power, root, p);
    assert SquareRoot(t, root, p);
    if Cong(root, 0, p) {
      CongMulLeft(root, root, 0, p);
      MulComm(root, 0);
      CongSym(root * root, f, p);
      CongTrans(f, root * root, 0, p);
    }
  }

  /** The extra bit selects the opposite point; without it, y is the root that is a square itself. */
  lemma DrawnPair(x: int, a: int, b: int, p: int)
    requires Prime(p) && p > 2 && p % 4 == 3 && 0 <= x < p
    ensures Drawn(x, true, a, b, p).Some? <==> Drawn(x, false, a, b, p).Some?
    ensures Drawn(x, false, a, b, p).Some? ==>
              && Opposite(Drawn(x, true, a, b, p).value, Drawn(x, false, a, b, p).value, p)
              && Residue(Drawn(x, false, a, b, p).value.y, p)
  {
    hide Pow, Prime, EulerTest, Residue;
    var f := Rhs(x, a, b);
    if EulerTest(f, p) {
      var root := Pow(f % p, (p + 1) / 4) % p;
      PowerRootIsSquare(f, p);
      ModSmall(root, p);
      CongSelfMod(-root, p);
      hide Cong;
      CongRefl(root, p);
      CongAdd((-root) % p, -root, root, root, p);
    }
  }

  // ---------------------------------------------------------------------
  // Singular curves
  // ---------------------------------------------------------------------

  /** x is a double root of the cubic. */
  ghost predicate DoubleRoot(x: int, a: int, b: int, p: int)
    requires p > 0
  {
    Cong(x * x * x + a * x + b, 0, p) && Cong(3 * (x * x) + a, 0, p)
  }

  /** The discriminant as a combination of the cubic and its derivative, with y for x^2. */
  lemma Discriminant(x: int, a: int, b: int)
    ensures var g, y := x * x * x + a * x, x * x;
            4 * a * a * a + 27 * b * b == 27 * ((b - g) * (b + g)) + (9 * y * y + 15 * a * y + 4 * a * a) * (3 * y + a)
  {
    var y := x * x;
    var g, w := x * x * x + a * x, y + a;
    assert g == x * w by { MulDistributes(y, a, x); MulComm(y, x); MulComm(a, x); }
    assert g * g == y * (w * w) by { MulInterchange(x, w, x, w); }
    assert (b - g) * (b + g) == b * b - g * g;
    DerivativeFactor(y, a);
  }

  lemma DerivativeFactor(y: int, a: int)
    ensures 27 * (y * ((y + a) * (y + a))) + 4 * a * a * a == (9 * y * y + 15 * a * y + 4 * a * a) * (3 * y + a)
  {
    var yy, ay, aa := y * y, a * y, a * a;
    DerivativeTerms(y, a, yy, ay, aa);
    assert (y + a) * (y + a) == yy + 2 * ay + aa;
    MulDistributes(yy + 2 * ay, aa, y);
    MulDistributes(yy, 2 * ay, y);
    MulDistributes(9 * yy + 15 * ay, 4 * aa, 3 * y + a);
    MulDistributes(9 * yy, 15 * ay, 3 * y + a);
    MulShuffle(9, y, y);
    MulShuffle(15, a, y);
    MulShuffle(4, a, a);
  }

  lemma DerivativeTerms(y: int, a: int, yy: int, ay: int, aa: int)
    requires yy == y * y && ay == a * y && aa == a * a
    ensures (9 * yy) * (3 * y + a) == 27 * (yy * y) + 9 * (yy * a)
    ensures (15 * ay) * (3 * y + a) == 45 * (yy * a) + 15 * (aa * y)
    ensures (4 * aa) * (3 * y + a) == 12 * (aa * y) + 4 * (aa * a)
    ensures ay * y == yy * a && y * yy == yy * y && y * aa == aa * y
  {
    MulAssoc(a, y, y);
    MulComm(a, yy);
    MulShuffle(a, y, a);
    MulComm(yy, y);
    MulComm(aa, y);
    TimesLinear(yy, y, a, 9);
    TimesLinear(ay, y, a, 15);
    TimesLinear(aa, y, a, 4);
  }

  lemma TimesLinear(t: int, y: int, a: int, c: int)
    ensures (c * t) * (3 * y + a) == 3 * (c * (t * y)) + c * (t * a)
  {
    MulDistributes(3 * y, a, c * t);
    MulShuffle(c, t, 3 * y);
    MulAssoc(c, t, a);
    MulAssoc(c, t, 3 * y);
    assert t * (3 * y) == 3 * (t * y);
  }

  lemma DoubleRootSingular(x: int, a: int, b: int, p: int)
    requires p > 0 && DoubleRoot(x, a, b, p)
    ensures Singular(a, b, p)
  {
    Discriminant(x, a, b);
    hide Cong;
    var g, y := x * x * x + a * x, x * x;
    var v := 9 * y * y + 15 * a * y + 4 * a * a;
    CongMulLeft(b - g, b + g, 0, p);
    MulComm(b - g, 0);
    CongMulLeft(27, (b - g) * (b + g), 0, p);
    CongMulLeft(v, 3 * y + a, 0, p);
    MulComm(v, 0);
    CongAdd(27 * ((b - g) * (b + g)), 0, v * (3 * y + a), 0, p);
    ZeroIffDivides(4 * a * a * a + 27 * b * b, p);
  }

  /** A number that is not zero divides everything modulo a prime. */
  lemma Quotient(d: int, n: int, p: int) returns (x: int)
    requires Prime(p) && !Cong(d, 0, p)
    ensures Cong(d * x, n, p)
  {
    assert p > 0;
    hide Cong, Prime;
    var i := Inverse(d, p);
    x := i * n;
    CongMulLeft(n, d * i, 1, p);
    MulAssoc(d, i, n);
    MulComm(n, d * i);
  }

  lemma SmallUnit(c: int, p: int)
    requires Prime(p) && p > 3 && (c == 2 || c == 3)
    ensures !Cong(c, 0, p)
  {
    SmallNotZero(c, p);
  }

  lemma ProductUnit(c: int, d: int, p: int)
    requires Prime(p) && !Cong(c, 0, p) && !Cong(d, 0, p)
    ensures !Cong(c * d, 0, p)
  {
    hide Cong;
    if Cong(c * d, 0, p) {
      Euclid(c, d, p);
    }
  }

  /** 2ax = -3b gives a double root, once the discriminant is zero. */
  lemma RootOfSingular(x: int, a: int, b: int, p: int)
    requires Prime(p) && p > 3 && Singular(a, b, p) && !Cong(a, 0, p) && Cong((2 * a) * x, -3 * b, p)
    ensures DoubleRoot(x, a, b, p)
  {
    ZeroIffDivides(4 * a * a * a + 27 * b * b, p);
    hide Cong;
    SmallUnit(2, p);
    SmallUnit(3, p);
    var d, h := 2 * a, 3 * (x * x) + a;
    ProductUnit(2, a, p);
    ProductUnit(d, d, p);
    // d^2 h = 3 (dx)^2 + 4 a^3
    CongMul(d * x, -3 * b, d * x, -3 * b, p);
    CongMulLeft(3, (d * x) * (d * x), (-3 * b) * (-3 * b), p);
    CongRefl(4 * a * a * a, p);
    CongAdd(3 * ((d * x) * (d * x)), 3 * ((-3 * b) * (-3 * b)), 4 * a * a * a, 4 * a * a * a, p);
    assert 3 * ((-3 * b) * (-3 * b)) + 4 * a * a * a == 4 * a * a * a + 27 * b * b;
    ScaledDerivative(x, a, d, h);
    CongTrans((d * d) * h, 4 * a * a * a + 27 * b * b, 0, p);
    Euclid(d * d, h, p);
    CubicVanishes(x, a, b, p);
  }

  lemma ScaledDerivative(x: int, a: int, d: int, h: int)
    requires d == 2 * a && h == 3 * (x * x) + a
    ensures (d * d) * h == 3 * ((d * x) * (d * x)) + 4 * a * a * a
  {
    MulDistributes(3 * (x * x), a, d * d);
    MulInterchange(d, d, x, x);
    MulInterchange(d, x, d, x);
    assert (d * d) * (3 * (x * x)) == 3 * ((d * d) * (x * x));
    assert (d * d) * a == 4 * a * a * a;
  }

  /** 3 (x^3 + ax + b) = x (3x^2 + a) + (2ax + 3b) */
  lemma CubicVanishes(x: int, a: int, b: int, p: int)
    requires Prime(p) && p > 3 && Cong(3 * (x * x) + a, 0, p) && Cong((2 * a) * x, -3 * b, p)
    ensures Cong(x * x * x + a * x + b, 0, p)
  {
    hide Cong;
    var f, h := x * x * x + a * x + b, 3 * (x * x) + a;
    SmallUnit(3, p);
    CongMulLeft(x, h, 0, p);
    MulComm(x, 0);
    CongRefl(3 * b, p);
    CongAdd((2 * a) * x, -3 * b, 3 * b, 3 * b, p);
    CongAdd(x * h, 0, (2 * a) * x + 3 * b, 0, p);
    assert 3 * f == x * h + ((2 * a) * x + 3 * b) by {
      MulDistributes(3 * (x * x), a, x);
      MulComm(a, x);
      assert x * (3 * (x * x)) == 3 * (x * x * x);
    }
    Euclid(3, f, p);
  }

  lemma OriginIsDoubleRoot(a: int, b: int, p: int)
    requires Prime(p) && p > 3 && Singular(a, b, p) && Cong(a, 0, p)
    ensures DoubleRoot(0, a, b, p)
  {
    ZeroIffDivides(4 * a * a * a + 27 * b * b, p);
    hide Cong;
    SmallUnit(3, p);
    CongMulLeft(4 * a * a, a, 0, p);
    MulComm(4 * a * a, 0);
    CongSub(4 * a * a * a + 27 * b * b, 0, 4 * a * a * a, 0, p);
    ProductUnit(3, 3, p);
    ProductUnit(9, 3, p);
    assert 27 * b * b == 27 * (b * b);
    Euclid(27, b * b, p);
    Euclid(b, b, p);
    assert 0 * 0 * 0 + a * 0 + b == b && 3 * (0 * 0) + a == a;
  }

  /** The curves the generator discards are exactly those whose cubic has a double root. */
  lemma SingularIff(a: int, b: int, p: int)
    requires Prime(p) && p > 3
    ensures Singular(a, b, p) <==> exists x :: DoubleRoot(x, a, b, p)
  {
    hide Singular, DoubleRoot, Prime, Cong;
    if Singular(a, b, p) {
      if Cong(a, 0, p) {
        OriginIsDoubleRoot(a, b, p);
      } else {
        SmallUnit(2, p);
        ProductUnit(2, a, p);
        var x := Quotient(2 * a, -3 * b, p);
        RootOfSingular(x, a, b, p);
      }
    }
    if x :| DoubleRoot(x, a, b, p) {
      DoubleRootSingular(x, a, b, p);
    }
  }

  // ---------------------------------------------------------------------
  // Repeated x coordinates
  // ---------------------------------------------------------------------

  ghost function XSet(points: seq<Point>): set<int>
    requires forall u :: u in points ==> u.Affine?
  {
    set u | u in points :: u.x
  }

  /** A chain is kept exactly when the set of its x coordinates is as large as the chain. */
  lemma {:induction false} DistinctXIff(points: seq<Point>)
    requires forall u :: u in points ==> u.Affine?
    ensures |XSet(points)| <= |points|
    ensures DistinctX(points) <==> |XSet(points)| == |points|
  {
    if points != [] {
      var front, last := points[..|points| - 1], points[|points| - 1];
      assert points == front + [last];
      DistinctXIff(front);
      assert XSet(points) == XSet(front) + {last.x};
      if last.x in XSet(front) {
        var u :| u in front && u.x == last.x;
        var i :| 0 <= i < |front| && front[i] == u;
        assert points[i].x == points[|front|].x;
      } else {
        assert forall i :: 0 <= i < |front| ==> front[i] in front && front[i].x in XSet(front);
        assert DistinctX(points) <==> DistinctX(front) by { DistinctXSnoc(front, last); }
      }
    }
  }

  lemma DistinctXSnoc(front: seq<Point>, last: Point)
    requires last.Affine? && forall i :: 0 <= i < |front| ==> front[i].Affine? && front[i].x != last.x
    ensures DistinctX(front + [last]) <==> DistinctX(front)
  {
    var points := front + [last];
    if DistinctX(points) {
      forall i, j | 0 <= i < j < |front| && front[i].Affine? && front[j].Affine? ensures front[i].x != front[j].x {
        assert points[i] == front[i] && points[j] == front[j];
      }
    }
  }
}
