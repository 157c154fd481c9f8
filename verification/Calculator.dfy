/**
 The polynomial slot machine of polys.c. Slots hold transformed buffers; the
 ghost model says which untransformed polynomial each buffer stands for. That
 polynomial is kept exact, at its full length: a buffer holds its values at
 the 128th roots of unity, which is all a product modulo x^128 - 1 can retain.
 */
module Calculator {
  import opened Machine
  import opened Options
  import opened ModArith
  import opened BitReversal
  import opened Polynomials
  import opened Transform
  import opened Roots
  import opened TransformLaws
  import opened Ntt

  const POLY_COUNT: int := 0x40
  const N: int := 128
  const MAX_DEGREE: int := 0x10

  /** len is the C field poly_degrees[i].degree, a wrapping 8-bit length. */
  datatype Slot = Empty | Held(poly: seq<int>, len: int)

  // ---------------------------------------------------------------------
  // What the commands mean
  // ---------------------------------------------------------------------

  ghost function RedAll(p: seq<int>): (t: seq<int>)
    ensures |t| == |p|
    ensures forall i {:trigger t[i]} :: 0 <= i < |p| ==> t[i] == Red(p[i])
  {
    seq(|p|, i requires 0 <= i < |p| => Red(p[i]))
  }

  ghost function PolyMul(a: seq<int>, b: seq<int>): seq<int> {
    RedAll(Product(a, b))
  }

  ghost function PolyAdd(a: seq<int>, b: seq<int>): seq<int> {
    RedAll(Plus(a, b))
  }

  /** The polynomial modulo x^128 - 1 and modulo MOD. */
  ghost function Reduced128(p: seq<int>): seq<int> {
    RedAll(Fold(p, N))
  }

  /** Coefficients typed by the user; a failed read counts as zero. */
  ghost function InputPoly(deg: int, input: seq<uint32>): (p: seq<int>)
    requires deg >= 0
    ensures |p| == deg + 1
    ensures forall i {:trigger p[i]} :: 0 <= i <= deg ==>
              p[i] == if i < |input| then input[i] as int % MOD else 0
  {
    seq(deg + 1, i requires 0 <= i <= deg => if i < |input| then input[i] as int % MOD else 0)
  }

  datatype Command =
    | Read(idx: int, deg: int, input: seq<uint32>)
    | Multiply(a: int, dest: int)
    | Add(a: int, b: int, dest: int)
    | Show(idx: int)

  ghost predicate IsHeld(m: seq<Slot>, i: int) {
    0 <= i < |m| && m[i].Held?
  }

  /** A multiply into an empty slot reads memory the program never set; everything else is covered. */
  ghost predicate Defined(m: seq<Slot>, c: Command) {
    match c
    case Read(idx, deg, _) => idx >= 0 && deg >= 0
    case Multiply(a, dest) => a >= 0 && dest >= 0 && (IsHeld(m, a) && dest < |m| ==> IsHeld(m, dest))
    case Add(a, b, dest) => a >= 0 && b >= 0 && dest >= 0
    case Show(idx) => idx >= 0
  }

  ghost function Step(m: seq<Slot>, c: Command): (r: seq<Slot>)
    requires |m| == POLY_COUNT && Defined(m, c)
    ensures |r| == POLY_COUNT
  {
    match c
    case Read(idx, deg, input) =>
      if idx < POLY_COUNT && deg <= MAX_DEGREE then m[idx := Held(InputPoly(deg, input), deg + 1)] else m
    case Multiply(a, dest) =>
      if dest < POLY_COUNT && IsHeld(m, a)
      then m[dest := Held(PolyMul(m[a].poly, m[dest].poly), (m[a].len + m[dest].len - 1) % 0x100)]
      else m
    case Add(a, b, dest) =>
      if dest < POLY_COUNT && IsHeld(m, a) && IsHeld(m, b)
      then m[dest := Held(PolyAdd(m[a].poly, m[b].poly), if m[a].len > m[b].len then m[a].len else m[b].len)]
      else m
    case Show(_) => m
  }

  /** What show prints: the reduced coefficients, cut at the tracked length. */
  ghost function Printed(m: seq<Slot>, idx: int): Option<seq<int>>
    requires forall i :: 0 <= i < |m| && m[i].Held? ==> m[i].len >= 0
  {
    if IsHeld(m, idx) then Some(Reduced128(m[idx].poly)[..if m[idx].len > N then N else m[idx].len]) else None
  }

  // ---------------------------------------------------------------------
  // Buffers are values at the roots of unity
  // ---------------------------------------------------------------------

  ghost function Root(): int {
    Wlen(N, false)
  }

  ghost function Values(p: seq<int>): (t: seq<int>)
    ensures |t| == N
    ensures forall k {:trigger t[k]} :: 0 <= k < N ==> t[k] == Red(Eval(p, Pow(Root(), k)))
  {
    seq(N, k requires 0 <= k < N => Red(Eval(p, Pow(Root(), k))))
  }

  lemma PowerOfTwo128()
    ensures PowerOfTwo(N)
  {
    Doubling(7);
    PowUnfold(2, 7);
    PowUnfold(2, 6);
    PowUnfold(2, 5);
    PowUnfold(2, 4);
    PowUnfold(2, 3);
    PowUnfold(2, 2);
    PowUnfold(2, 1);
  }

  lemma DftIsEval(s: seq<int>, w: int, k: nat)
    ensures DftAt(s, w, k) == Eval(s, Pow(w, k))
  {
    hide Pow, Sum;
    forall j | 0 <= j < |s|
      ensures Term(s, w, k)(j) == Monomial(s, Pow(w, k))(j)
    {
      PowPow(w, k, j);
      MulComm(k, j);
    }
    SumExt(Term(s, w, k), Monomial(s, Pow(w, k)), |s|);
  }

  /** Every root of order 128 has 128th power one. */
  lemma RootPower(k: nat)
    ensures Cong(Pow(Pow(Root(), k), N), 1, MOD)
  {
    hide Cong, Pow, Wlen;
    PowerOfTwo128();
    WlenFullTurn(N, false);
    PowSwap(Root(), k, N);
    PowCong(Pow(Root(), N), 1, k, MOD);
    PowOne(k);
  }

  lemma EvalRedAll(p: seq<int>, x: int)
    ensures Cong(Eval(RedAll(p), x), Eval(p, x), MOD)
  {
    hide Cong, Eval, Red;
    forall i | 0 <= i < |p| ensures Cong(RedAll(p)[i], p[i], MOD) {
      RedCong(p[i], p[i]);
    }
    EvalCong(RedAll(p), p, x, MOD);
  }

  /** The buffer of a slot is the transform of its polynomial reduced modulo x^128 - 1. */
  lemma ValuesAreTransform(p: seq<int>)
    ensures Transformed(Reduced128(p), false) == Values(p)
  {
    hide Cong, Eval, Red, Wlen, Pow, DftAt, Fold;
    var q := Reduced128(p);
    forall k | 0 <= k < N
      ensures Dft(q, Root())[k] == Values(p)[k]
    {
      var x := Pow(Root(), k);
      DftIsEval(q, Root(), k);
      EvalRedAll(Fold(p, N), x);
      RootPower(k);
      EvalFold(p, N, x, MOD);
      CongTrans(Eval(q, x), Eval(Fold(p, N), x), Eval(p, x), MOD);
      RedCong(Eval(q, x), Eval(p, x));
    }
  }

  /** Inverting a buffer yields the reduced polynomial. */
  lemma ValuesInverse(p: seq<int>)
    ensures Transformed(Values(p), true) == Reduced128(p)
  {
    PowerOfTwo128();
    ValuesAreTransform(p);
    assert Canonical(Reduced128(p));
    NttRoundTrip(Reduced128(p));
  }

  lemma ValuesMul(a: seq<int>, b: seq<int>, k: nat)
    requires k < N
    ensures Red(Values(a)[k] * Values(b)[k]) == Values(PolyMul(a, b))[k]
  {
    hide Cong, Eval, Red, Wlen, Pow, Product;
    var x := Pow(Root(), k);
    EvalProduct(a, b, x);
    EvalRedAll(Product(a, b), x);
    RedCong(Eval(a, x), 0);
    RedCong(Eval(b, x), 0);
    CongMul(Red(Eval(a, x)), Eval(a, x), Red(Eval(b, x)), Eval(b, x), MOD);
    CongTrans(Values(a)[k] * Values(b)[k], Eval(Product(a, b), x), Eval(PolyMul(a, b), x), MOD);
    RedCong(Values(a)[k] * Values(b)[k], Eval(PolyMul(a, b), x));
  }

  lemma ValuesAdd(a: seq<int>, b: seq<int>, k: nat)
    requires k < N
    ensures Red(Values(a)[k] + Values(b)[k]) == Values(PolyAdd(a, b))[k]
  {
    hide Cong, Eval, Red, Wlen, Pow, Plus;
    var x := Pow(Root(), k);
    EvalPlus(a, b, x);
    EvalRedAll(Plus(a, b), x);
    RedCong(Eval(a, x), 0);
    RedCong(Eval(b, x), 0);
    CongAdd(Red(Eval(a, x)), Eval(a, x), Red(Eval(b, x)), Eval(b, x), MOD);
    CongTrans(Values(a)[k] + Values(b)[k], Eval(Plus(a, b), x), Eval(PolyAdd(a, b), x), MOD);
    RedCong(Values(a)[k] + Values(b)[k], Eval(PolyAdd(a, b), x));
  }

  /** A canonical polynomial of at most 128 coefficients is its own reduction, padded with zeros. */
  lemma ReducedShort(p: seq<int>, k: nat)
    requires |p| <= N && Canonical(p) && k < N
    ensures Reduced128(p)[k] == At(p, k)
  {
    FoldShort(p, N, k);
    ModSmall(At(p, k), MOD);
  }

  // ---------------------------------------------------------------------
  // Exactness over whole runs
  // ---------------------------------------------------------------------

  /** Every tracked length is the true length and fits the buffer. */
  ghost predicate Exact(m: seq<Slot>) {
    forall i :: 0 <= i < |m| && m[i].Held? ==>
                  m[i].len == |m[i].poly| && 1 <= m[i].len <= N && Canonical(m[i].poly)
  }

  /** The only command that can overflow a buffer is a multiply. */
  ghost predicate Fits(m: seq<Slot>, c: Command) {
    c.Multiply? && IsHeld(m, c.a) && IsHeld(m, c.dest) ==> m[c.a].len + m[c.dest].len - 1 <= N
  }

  ghost predicate RunFits(m: seq<Slot>, cs: seq<Command>)
    requires |m| == POLY_COUNT
    decreases |cs|
  {
    cs == [] || (Defined(m, cs[0]) && Fits(m, cs[0]) && RunFits(Step(m, cs[0]), cs[1..]))
  }

  ghost function Run(m: seq<Slot>, cs: seq<Command>): (r: seq<Slot>)
    requires |m| == POLY_COUNT && RunFits(m, cs)
    ensures |r| == POLY_COUNT
    decreases |cs|
  {
    if cs == [] then m else Run(Step(m, cs[0]), cs[1..])
  }

  lemma StepExact(m: seq<Slot>, c: Command)
    requires |m| == POLY_COUNT && Exact(m) && Defined(m, c) && Fits(m, c)
    ensures Exact(Step(m, c))
  {
    hide Red, ProductAt;
    if c.Read? && c.idx < POLY_COUNT && c.deg <= MAX_DEGREE {
      assert Canonical(InputPoly(c.deg, c.input));
    }
  }

  lemma {:induction false} RunExact(m: seq<Slot>, cs: seq<Command>)
    requires |m| == POLY_COUNT && Exact(m) && RunFits(m, cs)
    ensures Exact(Run(m, cs))
    decreases |cs|
  {
    if cs != [] {
      StepExact(m, cs[0]);
      RunExact(Step(m, cs[0]), cs[1..]);
    }
  }

  /** After any run in which every product fits, show prints the exact polynomial of the slot. */
  lemma ShowAfterRun(m: seq<Slot>, cs: seq<Command>, idx: nat)
    requires |m| == POLY_COUNT && Exact(m) && RunFits(m, cs)
    ensures forall i :: 0 <= i < POLY_COUNT && Run(m, cs)[i].Held? ==> Run(m, cs)[i].len >= 0
    ensures IsHeld(Run(m, cs), idx) ==> Printed(Run(m, cs), idx) == Some(Run(m, cs)[idx].poly)
  {
    hide Reduced128;
    RunExact(m, cs);
    if IsHeld(Run(m, cs), idx) {
      ReducedIsExact(Run(m, cs)[idx].poly);
    }
  }

  lemma ReducedLength(p: seq<int>)
    ensures |Reduced128(p)| == N
  {
  }

  lemma ReducedIsExact(p: seq<int>)
    requires |p| <= N && Canonical(p)
    ensures |Reduced128(p)| == N && Reduced128(p)[..|p|] == p
  {
    hide Reduced128;
    ReducedLength(p);
    forall k | 0 <= k < |p| ensures Reduced128(p)[k] == p[k] {
      ReducedShort(p, k);
    }
  }

  /** The whole list of a product of exact slots, trailing zeros included, is printed exactly when it fits. Module
      Display says which coefficients come out right when it does not. */
  lemma ProductShownIff(m: seq<Slot>, a: nat, dest: nat)
    requires |m| == POLY_COUNT && Exact(m) && IsHeld(m, a) && IsHeld(m, dest)
    ensures var r := Step(m, Multiply(a, dest));
            && (forall i :: 0 <= i < POLY_COUNT && r[i].Held? ==> r[i].len >= 0)
            && (Printed(r, dest) == Some(PolyMul(m[a].poly, m[dest].poly)) <==> m[a].len + m[dest].len - 1 <= N)
  {
    hide Reduced128;
    var c := Multiply(a, dest);
    var r := Step(m, c);
    if Fits(m, c) {
      ShowAfterRun(m, [c], dest);
      assert [c][1..] == [];
      assert Run(m, [c]) == r;
    } else {
      ReducedLength(r[dest].poly);
    }
  }

  // ---------------------------------------------------------------------
  // The program state
  // ---------------------------------------------------------------------

  ghost predicate Holds(buf: array<uint32>, p: seq<int>)
    reads buf
  {
    buf.Length == N && Reduced(buf[..]) && Vals(buf[..]) == Values(p)
  }

  /** The pointwise loop of add; the destination may be either operand. */
  method AddInto(fDest: array<uint32>, fa: array<uint32>, fb: array<uint32>, ghost p: seq<int>, ghost q: seq<int>)
    requires Holds(fa, p) && Holds(fb, q) && fDest.Length == N
    modifies fDest
    ensures Holds(fDest, PolyAdd(p, q))
  {
    ghost var left, right := fa[..], fb[..];
    for i := 0 to N
      invariant forall k :: 0 <= k < i ==> fDest[k] == AddMod(left[k], right[k])
      invariant forall k :: i <= k < N ==> fa[k] == left[k] && fb[k] == right[k]
    {
      fDest[i] := AddMod(fa[i], fb[i]);
    }
    AddBuffer(left, right, fDest[..], p, q);
  }

  /** The pointwise loop of multiply, which overwrites its second operand; both may be the same buffer. */
  method MultiplyInto(fDest: array<uint32>, fa: array<uint32>, ghost p: seq<int>, ghost q: seq<int>)
    requires Holds(fa, p) && Holds(fDest, q)
    modifies fDest
    ensures Holds(fDest, PolyMul(p, q))
  {
    ghost var left, before := fa[..], fDest[..];
    for i := 0 to N
      invariant forall k :: 0 <= k < i ==> fDest[k] == MulMod(left[k], before[k])
      invariant forall k :: i <= k < N ==> fDest[k] == before[k] && fa[k] == left[k]
    {
      fDest[i] := MulMod(fa[i], fDest[i]);
    }
    MulBuffer(left, before, fDest[..], p, q);
  }

  class PolyStore {
    const polys: array<array?<uint32>>
    const degrees: array<uint8>
    ghost var model: seq<Slot>
    ghost var buffers: set<object>

    /** Slots own distinct buffers, and every buffer holds the values of its slot's polynomial. */
    ghost predicate Valid()
      reads this, polys, degrees, buffers
    {
      && polys.Length == degrees.Length == |model| == POLY_COUNT
      && this !in buffers && polys !in buffers && degrees !in buffers
      && (forall i :: 0 <= i < POLY_COUNT ==> (polys[i] == null <==> model[i].Empty?))
      && (forall i :: 0 <= i < POLY_COUNT && polys[i] != null ==>
                        polys[i] in buffers && Holds(polys[i], model[i].poly) && degrees[i] as int == model[i].len)
      && (forall i, j :: 0 <= i < j < POLY_COUNT && polys[i] != null ==> polys[i] != polys[j])
    }

    constructor ()
      ensures Valid() && model == seq(POLY_COUNT, _ => Empty)
      ensures fresh(polys) && fresh(degrees) && buffers == {}
    {
      polys := new array?<uint32>[POLY_COUNT](_ => null);
      degrees := new uint8[POLY_COUNT](_ => 0);
      model := seq(POLY_COUNT, _ => Empty);
      buffers := {};
    }

    /** Stores a buffer that no other slot holds, or the slot's own buffer again. */
    method Store(i: nat, buf: array<uint32>, degree: uint8, ghost p: seq<int>)
      requires i < POLY_COUNT && polys.Length == degrees.Length == |model| == POLY_COUNT
      requires this !in buffers && polys !in buffers && degrees !in buffers
      requires buf as object != polys && buf as object != degrees && Holds(buf, p)
      requires forall k :: 0 <= k < POLY_COUNT && k != i ==> (polys[k] == null <==> model[k].Empty?)
      requires forall k :: 0 <= k < POLY_COUNT && k != i && polys[k] != null ==>
                             polys[k] in buffers && Holds(polys[k], model[k].poly) && degrees[k] as int == model[k].len
      requires forall k, j :: 0 <= k < j < POLY_COUNT && polys[k] != null ==> polys[k] != polys[j]
      requires forall k :: 0 <= k < POLY_COUNT && k != i ==> polys[k] != buf
      modifies this, polys, degrees
      ensures Valid() && model == old(model)[i := Held(p, degree as int)]
      ensures buffers == old(buffers) + {buf}
    {
      polys[i] := buf;
      degrees[i] := degree;
      model := model[i := Held(p, degree as int)];
      buffers := buffers + {buf};
    }

    method ReadPoly(idx: uint32, deg: uint32, input: seq<uint32>)
      requires Valid()
      modifies this, polys, degrees
      ensures Valid() && fresh(buffers - old(buffers))
      ensures model == Step(old(model), Read(idx as int, deg as int, input))
    {
      if idx as int >= POLY_COUNT || deg as int > MAX_DEGREE {
        return;
      }
      var poly := new uint32[N](_ => 0);
      ghost var p := InputPoly(deg as int, input);
      for i := 0 to deg as int + 1
        modifies poly
        invariant forall k :: 0 <= k < i ==> poly[k] as int == p[k]
        invariant forall k :: i <= k < N ==> poly[k] == 0
      {
        var coeff := if i < |input| then input[i] else 0;
        poly[i] := coeff % MODULUS;
      }
      InputBuffer(poly[..], deg as int, input);
      ValuesAreTransform(p);
      PowerOfTwo128();
      NttInPlace(poly, N, false);
      Store(idx as int, poly, deg as uint8 + 1, p);
    }

    method MultiplyPolys(first: uint32, second: uint32)
      requires Valid()
      requires first % 0x100 < 0x80 && second % 0x100 < 0x80
      requires Defined(model, Multiply((first % 0x100) as int, (second % 0x100) as int))
      modifies this, polys, degrees, buffers
      ensures Valid() && buffers == old(buffers)
      ensures model == Step(old(model), Multiply((first % 0x100) as int, (second % 0x100) as int))
    {
      var a, dest := (first % 0x100) as int, (second % 0x100) as int;
      if a >= POLY_COUNT || dest >= POLY_COUNT || polys[a] == null {
        return;
      }
      var fDest := polys[dest];
      var fa := polys[a];
      var degDest := ((degrees[a] as int + degrees[dest] as int - 1) % 0x100) as uint8;
      MultiplyInto(fDest, fa, model[a].poly, model[dest].poly);
      Store(dest, fDest, degDest, PolyMul(model[a].poly, model[dest].poly));
    }

    method AddPolys(a: uint32, b: uint32, dest: uint32)
      requires Valid()
      modifies this, polys, degrees, buffers
      ensures Valid() && fresh(buffers - old(buffers))
      ensures model == Step(old(model), Add(a as int, b as int, dest as int))
    {
      if a as int >= POLY_COUNT || b as int >= POLY_COUNT || dest as int >= POLY_COUNT ||
         polys[a as int] == null || polys[b as int] == null {
        return;
      }
      var fa, fb := polys[a as int], polys[b as int];
      var fDest: array<uint32>;
      if polys[dest as int] != null {
        fDest := polys[dest as int];
      } else {
        fDest := new uint32[N];
      }
      AddInto(fDest, fa, fb, model[a as int].poly, model[b as int].poly);
      var degree := if degrees[a as int] > degrees[b as int] then degrees[a as int] else degrees[b as int];
      Store(dest as int, fDest, degree, PolyAdd(model[a as int].poly, model[b as int].poly));
    }

    /** Returns the printed coefficients, or nothing for an invalid index. */
    method ShowPoly(idx: uint32) returns (shown: Option<seq<uint32>>)
      requires Valid()
      ensures shown.None? <==> !IsHeld(model, idx as int)
      ensures shown.Some? ==>
                |Reduced128(model[idx as int].poly)| == N && 0 <= model[idx as int].len &&
                Vals(shown.value) == Reduced128(model[idx as int].poly)
                                     [..if model[idx as int].len > N then N else model[idx as int].len]
    {
      if idx as int >= POLY_COUNT || polys[idx as int] == null {
        return None;
      }
      var source := polys[idx as int];
      var tmp := new uint32[N](i requires 0 <= i < N reads source requires source.Length == N => source[i]);
      assert tmp[..] == source[..];
      PowerOfTwo128();
      ValuesInverse(model[idx as int].poly);
      NttInPlace(tmp, N, true);
      var deg := if degrees[idx as int] as int > N then N else degrees[idx as int] as int;
      shown := Some(tmp[..deg]);
    }
  }

  lemma InputBuffer(s: seq<uint32>, deg: int, input: seq<uint32>)
    requires 0 <= deg <= MAX_DEGREE && |s| == N
    requires forall k :: 0 <= k <= deg ==> s[k] as int == InputPoly(deg, input)[k]
    requires forall k :: deg < k < N ==> s[k] == 0
    ensures Reduced(s) && Vals(s) == Reduced128(InputPoly(deg, input))
  {
    hide Reduced128;
    var p := InputPoly(deg, input);
    assert Canonical(p);
    ReducedLength(p);
    forall k | 0 <= k < N ensures Vals(s)[k] == Reduced128(p)[k] {
      ReducedShort(p, k);
    }
  }

  lemma MulBuffer(left: seq<uint32>, before: seq<uint32>, r: seq<uint32>, p: seq<int>, q: seq<int>)
    requires |left| == |before| == |r| == N && Vals(left) == Values(p) && Vals(before) == Values(q)
    requires forall k :: 0 <= k < N ==> r[k] == MulMod(left[k], before[k])
    ensures Reduced(r) && Vals(r) == Values(PolyMul(p, q))
  {
    hide Red, Eval, PolyMul;
    forall k | 0 <= k < N ensures Vals(r)[k] == Values(PolyMul(p, q))[k] {
      ValuesMul(p, q, k);
      assert Vals(left)[k] == left[k] as int && Vals(before)[k] == before[k] as int;
    }
  }

  lemma AddBuffer(left: seq<uint32>, right: seq<uint32>, r: seq<uint32>, p: seq<int>, q: seq<int>)
    requires |left| == |right| == |r| == N && Vals(left) == Values(p) && Vals(right) == Values(q)
    requires Reduced(left) && Reduced(right)
    requires forall k :: 0 <= k < N ==> r[k] == AddMod(left[k], right[k])
    ensures Reduced(r) && Vals(r) == Values(PolyAdd(p, q))
  {
    hide Red, Eval, PolyAdd;
    forall k | 0 <= k < N ensures Vals(r)[k] == Values(PolyAdd(p, q))[k] {
      ValuesAdd(p, q, k);
      assert Vals(left)[k] == left[k] as int && Vals(right)[k] == right[k] as int;
    }
  }
}
