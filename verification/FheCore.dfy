/**
 The arithmetic core of fhe_core.py: negacyclic multiplication through one big
 integer product with 128-bit slots, and LWE encryption over 64-bit words.
 Randomness (masks, keys, noise) is an arbitrary input throughout.
 */
module FheCore {
  import opened ModArith
  import opened Bits
  import opened Polynomials

  const Q: int := 0x1_0000_0000_0000_0000
  const P: int := 5
  const DELTA: int := 0x3333_3333_3333_3333
  const RING: int := 512
  const SLOT: int := 0x1_0000_0000_0000_0000_0000_0000_0000_0000

  /** x & (2^64 - 1) and x & (2^128 - 1), kept folded in proofs about products. */
  function RedQ(x: int): (r: int)
    ensures 0 <= r < Q
  {
    x % Q
  }

  function LowSlot(x: int): (r: int)
    ensures 0 <= r < SLOT
  {
    x % SLOT
  }

  lemma RedQCong(x: int, y: int)
    ensures RedQ(x) == RedQ(y) <==> Cong(x, y, Q)
    ensures Cong(RedQ(x), x, Q) && Cong(x, RedQ(x), Q)
  {
    CongSelfMod(x, Q);
  }

  type poly = p: seq<int> | |p| == RING witness seq(RING, _ => 0)

  // ---------------------------------------------------------------------
  // Reference definition: the ring of integers modulo x^512 + 1 and 2^64
  // ---------------------------------------------------------------------

  ghost function NegaTerm(a: poly, b: poly, j: int): int -> int {
    i => if i <= j then At(a, i) * At(b, j - i) else -(At(a, i) * At(b, RING + j - i))
  }

  /** Coefficient j of a * b modulo x^512 + 1. */
  ghost function NegaAt(a: poly, b: poly, j: int): int {
    Sum(NegaTerm(a, b, j), RING)
  }

  ghost function Negacyclic(a: poly, b: poly): (r: poly)
    ensures forall j {:trigger r[j]} :: 0 <= j < RING ==> r[j] == RedQ(NegaAt(a, b, j))
  {
    seq(RING, j requires 0 <= j < RING => RedQ(NegaAt(a, b, j)))
  }

  /** Folding with a sign: x^512 is -1, so the upper half of the raw product is subtracted. */
  lemma NegaIsFoldedProduct(a: poly, b: poly, j: nat)
    requires j < RING
    ensures NegaAt(a, b, j) == ProductAt(a, b, j) - ProductAt(a, b, j + RING)
  {
    hide Sum;
    var minus := Scaled(-1, ProductTerm(a, b, j + RING));
    forall i | 0 <= i < RING
      ensures NegaTerm(a, b, j)(i) == ProductTerm(a, b, j)(i) + minus(i)
    {
      if i <= j {
        assert At(b, RING + j - i) == 0;
        MulComm(At(a, i), 0);
      } else {
        assert At(b, j - i) == 0;
        MulComm(At(a, i), 0);
      }
    }
    SumAdd(ProductTerm(a, b, j), minus, NegaTerm(a, b, j), RING);
    SumScale(-1, ProductTerm(a, b, j + RING), minus, RING);
  }

  // ---------------------------------------------------------------------
  // Packing
  // ---------------------------------------------------------------------

  ghost function Low(p: seq<int>): (r: seq<int>)
    ensures |r| == |p|
    ensures forall i {:trigger r[i]} :: 0 <= i < |p| ==> r[i] == LowSlot(p[i])
  {
    seq(|p|, i requires 0 <= i < |p| => LowSlot(p[i]))
  }

  lemma SlotPower()
    ensures SLOT == Pow(2, 128)
  {
    hide Pow;
    BytePower();
    PowPow(2, 8, 2);
    PowPow(2, 16, 2);
    PowPow(2, 32, 2);
    PowPow(2, 64, 2);
    PowTwo(Pow(2, 8));
    PowTwo(Pow(2, 16));
    PowTwo(Pow(2, 32));
    PowTwo(Pow(2, 64));
  }

  /** One step of the packing loop: shift by a slot and OR in the low part. */
  lemma PackStep(x: nat, c: nat)
    requires c < SLOT
    ensures Or(x * SLOT, c) == c + x * SLOT
  {
    SlotPower();
    OrDisjoint(c, x, 128);
    OrSymmetric(c, x * SLOT);
  }

  method Pack(p: poly) returns (x: nat)
    ensures x == Eval(Low(p), SLOT)
  {
    hide Eval;
    ghost var q := Low(p);
    x := 0;
    EvalNil(SLOT);
    assert q[RING..] == [];
    for i := RING downto 0
      invariant x == Eval(q[i..], SLOT)
    {
      PackStep(x, LowSlot(p[i]));
      EvalCons(q[i], q[i + 1..], SLOT);
      assert q[i..] == [q[i]] + q[i + 1..];
      x := Or(x * SLOT, LowSlot(p[i]));
    }
    assert q[0..] == q;
  }

  // ---------------------------------------------------------------------
  // Slots of the product
  // ---------------------------------------------------------------------

  /** What slot i receives from the slots below it. */
  ghost function Carry(c: seq<int>, i: nat): int
    requires i <= |c|
  {
    if i == 0 then 0 else (Carry(c, i - 1) + c[i - 1]) / SLOT
  }

  /** Shifting a slot sum right by i slots leaves the carry and the upper coefficients. */
  lemma {:induction false} ShiftedSlots(c: seq<int>, i: nat)
    requires i <= |c|
    ensures Pow(SLOT, i) > 0
    ensures Eval(c, SLOT) / Pow(SLOT, i) == Carry(c, i) + Eval(c[i..], SLOT)
  {
    if i == 0 {
      assert c[0..] == c;
    } else {
      ShiftedSlots(c, i - 1);
      hide Eval;
      var rest := Eval(c[i..], SLOT);
      assert c[i - 1..] == [c[i - 1]] + c[i..];
      EvalCons(c[i - 1], c[i..], SLOT);
      PowNext(SLOT, i);
      DivTwice(Eval(c, SLOT), Pow(SLOT, i - 1), SLOT);
      MulComm(SLOT, Pow(SLOT, i - 1));
      DivByAddition(Carry(c, i - 1) + c[i - 1], rest, SLOT);
    }
  }

  lemma DivByAddition(x: int, y: int, m: int)
    requires m > 0
    ensures (x + m * y) / m == x / m + y
  {
    assert x == (x / m) * m + x % m;
    MulDistributes(x / m, y, m);
    MulComm(m, y);
    DivModUnique(x / m + y, x % m, m);
  }

  lemma ShiftedSplit(c: seq<int>, i: nat)
    requires i < |c|
    ensures Pow(SLOT, i) > 0
    ensures Eval(c, SLOT) / Pow(SLOT, i) == c[i] + Carry(c, i) + SLOT * Eval(c[i + 1..], SLOT)
  {
    ShiftedSlots(c, i);
    hide Eval, Pow, Carry;
    assert c[i..] == [c[i]] + c[i + 1..];
    EvalCons(c[i], c[i + 1..], SLOT);
  }

  lemma SlotReduction(v: int, u: int, rest: int)
    requires v == u + SLOT * rest
    ensures Cong(LowSlot(v), u, Q)
  {
    var k := v / SLOT;
    assert v == k * SLOT + v % SLOT;
    CongIntro(v % SLOT, u, (rest - k) * Q, Q);
  }

  /** Without overflow there are no carries. */
  lemma {:induction false} NoCarry(c: seq<int>, i: nat)
    requires i <= |c|
    requires forall t :: 0 <= t < |c| ==> 0 <= c[t] < SLOT
    ensures Carry(c, i) == 0
  {
    if i > 0 {
      NoCarry(c, i - 1);
    }
  }

  // ---------------------------------------------------------------------
  // The multiplication
  // ---------------------------------------------------------------------

  /** The raw convolution sums, one per slot. */
  ghost function Raw(a: poly, b: poly): (c: seq<int>)
    ensures |c| == 2 * RING - 1
  {
    Product(Low(a), Low(b))
  }

  ghost function CarryInto(c: seq<int>, i: nat): int {
    if i < |c| then Carry(c, i) else 0
  }

  ghost function MultipliedAt(a: poly, b: poly, j: nat): int {
    RedQ(NegaAt(a, b, j) + CarryInto(Raw(a, b), j) - CarryInto(Raw(a, b), j + RING))
  }

  /** Exactly what poly_mul returns: the negacyclic product, disturbed by slot carries. */
  ghost function Multiplied(a: poly, b: poly): (r: poly)
    ensures forall j {:trigger r[j]} :: 0 <= j < RING ==> r[j] == MultipliedAt(a, b, j)
  {
    seq(RING, j requires 0 <= j < RING => MultipliedAt(a, b, j))
  }

  /** The value the loop reads from slot i. */
  ghost function SlotOf(c: seq<int>, i: nat): (v: int)
    ensures 0 <= v < SLOT
  {
    if i < |c| && Pow(SLOT, i) > 0 then LowSlot(Eval(c, SLOT) / Pow(SLOT, i)) else 0
  }

  /** The slot read out is the coefficient plus its carry, up to multiples of 2^64. */
  lemma SlotOfCong(c: seq<int>, i: nat)
    ensures Cong(SlotOf(c, i), (if i < |c| then c[i] else 0) + CarryInto(c, i), Q)
  {
    hide Cong, Eval, Pow, Carry, LowSlot;
    if i < |c| {
      ShiftedSplit(c, i);
      SlotReduction(Eval(c, SLOT) / Pow(SLOT, i), c[i] + Carry(c, i), Eval(c[i + 1..], SLOT));
    } else {
      CongRefl(0, Q);
    }
  }

  method PolyMul(a: poly, b: poly) returns (r: poly)
    ensures r == Multiplied(a, b)
  {
    hide Eval, Low;
    var packedA := Pack(a);
    var packedB := Pack(b);
    EvalProduct(Low(a), Low(b), SLOT);
    r := FoldSlots(packedA * packedB, Raw(a, b));
    hide Multiplied, Accumulated;
    forall j | 0 <= j < RING ensures r[j] == Multiplied(a, b)[j] {
      AccumulatedAll(a, b, j);
    }
  }

  /** Reads the slots of the big product and folds them into one polynomial. */
  method FoldSlots(packed: int, ghost c: seq<int>) returns (r: poly)
    requires |c| == 2 * RING - 1 && packed == Eval(c, SLOT)
    ensures forall j :: 0 <= j < RING ==> r[j] == Accumulated(c, 2 * RING - 1, j)
  {
    hide Eval, Pow, SlotOf, RedQ, LowSlot, Accumulated;
    var out: seq<int> := seq(RING, _ => 0);
    AccumulatedStart(c);
    for i := 0 to 2 * RING - 1
      invariant |out| == RING
      invariant forall j :: 0 <= j < RING ==> out[j] == Accumulated(c, i, j)
    {
      SlotDefinition(c, i);
      var v := LowSlot(packed / Pow(SLOT, i));
      AccumulatedStep(c, i, if i < RING then i else i - RING);
      if v != 0 {
        if i < RING {
          out := out[i := RedQ(out[i] + v)];
        } else {
          out := out[i - RING := RedQ(out[i - RING] - v)];
        }
      }
    }
    r := out;
  }

  lemma AccumulatedStart(c: seq<int>)
    ensures forall j :: 0 <= j < RING ==> Accumulated(c, 0, j) == 0
  {
  }

  /** Reading slot i changes only the entry it folds into. */
  lemma AccumulatedStep(c: seq<int>, i: nat, at: nat)
    requires i < 2 * RING - 1 && at == if i < RING then i else i - RING
    ensures forall j :: 0 <= j < RING && j != at ==> Accumulated(c, i + 1, j) == Accumulated(c, i, j)
    ensures i < RING ==> Accumulated(c, i + 1, at) == RedQ(Accumulated(c, i, at) + SlotOf(c, i))
    ensures i >= RING ==> Accumulated(c, i + 1, at) == RedQ(Accumulated(c, i, at) - SlotOf(c, i))
    ensures SlotOf(c, i) == 0 ==> Accumulated(c, i + 1, at) == Accumulated(c, i, at)
  {
    hide SlotOf, RedQ, Cong;
    var before := if i < RING then 0 else SlotOf(c, at);
    var v := SlotOf(c, i);
    RedQCong(before, before);
    CongRefl(v, Q);
    CongAdd(RedQ(before), before, v, v, Q);
    CongSub(RedQ(before), before, v, v, Q);
    RedQCong(RedQ(before) + v, before + v);
    RedQCong(RedQ(before) - v, before - v);
  }

  /** out[j] once the slots below i have been read. */
  ghost function Accumulated(c: seq<int>, i: nat, j: nat): int {
    RedQ((if j < i then SlotOf(c, j) else 0) - (if j + RING < i then SlotOf(c, j + RING) else 0))
  }

  lemma SlotDefinition(c: seq<int>, i: nat)
    requires i < |c|
    ensures Pow(SLOT, i) > 0 && SlotOf(c, i) == LowSlot(Eval(c, SLOT) / Pow(SLOT, i))
  {
    ShiftedSlots(c, i);
  }

  lemma AccumulatedAll(a: poly, b: poly, j: nat)
    requires j < RING
    ensures Accumulated(Raw(a, b), 2 * RING - 1, j) == Multiplied(a, b)[j]
  {
    hide Cong, SlotOf, Carry, NegaAt, ProductAt, RedQ;
    var c := Raw(a, b);
    var lo, hi := ProductAt(Low(a), Low(b), j), ProductAt(Low(a), Low(b), j + RING);
    SlotOfCong(c, j);
    SlotOfCong(c, j + RING);
    RawBeyond(a, b, j + RING);
    CongSub(SlotOf(c, j), lo + CarryInto(c, j), SlotOf(c, j + RING), hi + CarryInto(c, j + RING), Q);
    NegaIsFoldedProduct(Low(a), Low(b), j);
    NegaLow(a, b, j);
    var d := CarryInto(c, j) - CarryInto(c, j + RING);
    CongRefl(d, Q);
    CongAdd(NegaAt(Low(a), Low(b), j), NegaAt(a, b, j), d, d, Q);
    CongTrans(SlotOf(c, j) - SlotOf(c, j + RING), NegaAt(Low(a), Low(b), j) + d, NegaAt(a, b, j) + d, Q);
    RedQCong(SlotOf(c, j) - SlotOf(c, j + RING), NegaAt(a, b, j) + d);
    SlotBeyond(c, 2 * RING - 1);
  }

  lemma SlotBeyond(c: seq<int>, i: nat)
    requires i >= |c|
    ensures SlotOf(c, i) == 0
  {
  }

  /** The raw sums vanish past the top degree. */
  lemma RawBeyond(a: poly, b: poly, i: nat)
    ensures i >= 2 * RING - 1 ==> ProductAt(Low(a), Low(b), i) == 0
    ensures (if i < |Raw(a, b)| then Raw(a, b)[i] else 0) == ProductAt(Low(a), Low(b), i)
  {
    if i >= 2 * RING - 1 {
      hide Sum;
      forall t | 0 <= t < RING ensures ProductTerm(Low(a), Low(b), i)(t) == 0 {
        MulComm(At(Low(a), t), 0);
      }
      SumZero(ProductTerm(Low(a), Low(b), i), RING);
    }
  }

  /** Dropping bits above a slot does not matter modulo 2^64. */
  lemma NegaLow(a: poly, b: poly, j: nat)
    requires j < RING
    ensures Cong(NegaAt(Low(a), Low(b), j), NegaAt(a, b, j), Q)
  {
    hide Cong, Sum, LowSlot;
    forall i | 0 <= i < RING
      ensures Cong(NegaTerm(Low(a), Low(b), j)(i), NegaTerm(a, b, j)(i), Q)
    {
      var t := if i <= j then j - i else RING + j - i;
      LowCong(a[i]);
      LowCong(b[t]);
      CongMul(Low(a)[i], a[i], Low(b)[t], b[t], Q);
      CongRefl(0, Q);
      CongSub(0, 0, Low(a)[i] * Low(b)[t], a[i] * b[t], Q);
    }
    SumCong(NegaTerm(Low(a), Low(b), j), NegaTerm(a, b, j), RING, Q);
  }

  lemma LowCong(x: int)
    ensures Cong(LowSlot(x), x, Q)
  {
    var k := x / SLOT;
    assert x == k * SLOT + x % SLOT;
    CongIntro(x % SLOT, x, -k * Q, Q);
  }

  /** When no convolution sum overflows its slot, poly_mul is multiplication modulo x^512 + 1 and 2^64. */
  lemma PolyMulNegacyclic(a: poly, b: poly)
    requires forall t :: 0 <= t < 2 * RING - 1 ==> 0 <= Raw(a, b)[t] < SLOT
    ensures Multiplied(a, b) == Negacyclic(a, b)
  {
    hide NegaAt, Raw;
    forall j | 0 <= j < RING ensures Multiplied(a, b)[j] == Negacyclic(a, b)[j] {
      NoCarry(Raw(a, b), j);
      if j + RING < 2 * RING - 1 {
        NoCarry(Raw(a, b), j + RING);
      }
    }
  }

  /** In general it is correct exactly when the carries into the two folded slots agree modulo 2^64. */
  lemma PolyMulCorrectIff(a: poly, b: poly)
    ensures Multiplied(a, b) == Negacyclic(a, b) <==>
            forall j :: 0 <= j < RING ==> Cong(CarryInto(Raw(a, b), j), CarryInto(Raw(a, b), j + RING), Q)
  {
    hide NegaAt, Raw, CarryInto;
    forall j | 0 <= j < RING
      ensures Multiplied(a, b)[j] == Negacyclic(a, b)[j] <==>
              Cong(CarryInto(Raw(a, b), j), CarryInto(Raw(a, b), j + RING), Q)
    {
      ShiftCong(NegaAt(a, b, j), CarryInto(Raw(a, b), j), CarryInto(Raw(a, b), j + RING));
    }
    if Multiplied(a, b) == Negacyclic(a, b) {
      assert forall j :: 0 <= j < RING ==> Multiplied(a, b)[j] == Negacyclic(a, b)[j];
    }
  }

  lemma ShiftCong(x: int, u: int, v: int)
    ensures (x + u - v) % Q == x % Q <==> Cong(u, v, Q)
  {
  }

  ghost predicate UpTo(a: poly, m: int) {
    forall i :: 0 <= i < RING ==> 0 <= a[i] <= m
  }

  lemma {:induction false} BoundedSum(f: int -> int, n: nat, m: int)
    requires forall i :: 0 <= i < n ==> 0 <= f(i) <= m
    ensures 0 <= Sum(f, n) <= n * m
  {
    if n > 0 {
      BoundedSum(f, n - 1, m);
      MulDistributes(n - 1, 1, m);
    } else {
      MulComm(0, m);
    }
  }

  lemma TermUpTo(x: int, y: int, m: int, l: int)
    requires 0 <= x <= m && 0 <= y <= l
    ensures 0 <= x * y <= m * l
  {
    MulMonotone(0, x, y);
    MulMonotone(x, m, y);
    MulMonotone(y, l, m);
    MulComm(m, y);
    MulComm(m, l);
  }

  lemma LowUpTo(x: int, m: int)
    requires 0 <= x <= m
    ensures 0 <= LowSlot(x) <= m
  {
    if x < SLOT {
      ModSmall(x, SLOT);
    }
  }

  lemma RawUpTo(a: poly, b: poly, m: int, l: int, t: nat)
    requires UpTo(a, m) && UpTo(b, l) && t < 2 * RING - 1
    ensures 0 <= Raw(a, b)[t] <= RING * (m * l)
  {
    hide Sum, LowSlot;
    var f := ProductTerm(Low(a), Low(b), t);
    assert 0 <= b[0] <= l;
    forall i | 0 <= i < RING ensures 0 <= f(i) <= m * l {
      LowUpTo(a[i], m);
      if 0 <= t - i < RING {
        LowUpTo(b[t - i], l);
      }
      TermUpTo(Low(a)[i], At(Low(b), t - i), m, l);
    }
    BoundedSum(f, RING, m * l);
  }

  /** Sizes known before the call: 512 products of the largest coefficients have to fit a slot. */
  lemma SmallOperandsNegacyclic(a: poly, b: poly, m: int, l: int)
    requires UpTo(a, m) && UpTo(b, l) && RING * (m * l) < SLOT
    ensures Multiplied(a, b) == Negacyclic(a, b)
  {
    hide Raw, UpTo, NegaAt, Multiplied, Negacyclic;
    forall t | 0 <= t < 2 * RING - 1 ensures 0 <= Raw(a, b)[t] < SLOT {
      RawUpTo(a, b, m, l, t);
    }
    PolyMulNegacyclic(a, b);
  }

  /** The inputs of glwe_encrypt: a 64-bit mask and a binary key. */
  ghost predicate Masked(a: poly, b: poly) {
    (forall i :: 0 <= i < RING ==> 0 <= a[i] < Q) && (forall i :: 0 <= i < RING ==> b[i] == 0 || b[i] == 1)
  }

  lemma MaskedNegacyclic(a: poly, b: poly)
    requires Masked(a, b)
    ensures Multiplied(a, b) == Negacyclic(a, b)
  {
    assert UpTo(a, Q - 1) && UpTo(b, 1);
    hide Multiplied, Negacyclic, UpTo;
    SmallOperandsNegacyclic(a, b, Q - 1, 1);
  }

  // ---------------------------------------------------------------------
  // Full 64-bit operands on both sides do overflow
  // ---------------------------------------------------------------------

  ghost function TwoTall(): (p: poly)
    ensures forall i {:trigger p[i]} :: 0 <= i < RING ==> p[i] == if i < 2 then Q - 1 else 0
  {
    seq(RING, i requires 0 <= i < RING => if i < 2 then Q - 1 else 0)
  }

  lemma TwoTallRaw(t: nat)
    requires t < 2 * RING - 1
    ensures Raw(TwoTall(), TwoTall())[t] == (Q - 1) * At(TwoTall(), t) + (Q - 1) * At(TwoTall(), t - 1)
  {
    var p := TwoTall();
    assert Low(p) == p by {
      forall i | 0 <= i < RING ensures Low(p)[i] == p[i] {
        ModSmall(p[i], SLOT);
      }
    }
    var f := ProductTerm(p, p, t);
    var g := (i: int) => if i < 0 then 0 else f(2 + i);
    hide Sum;
    forall i | 0 <= i < RING - 2 ensures g(i) == 0 {
      MulComm(0, At(p, t - (2 + i)));
    }
    SumSplit(f, g, 2, RING - 2);
    SumZero(g, RING - 2);
    SumOfTwo(f);
  }

  lemma SumOfTwo(f: int -> int)
    ensures Sum(f, 2) == f(0) + f(1)
  {
    SumOfOne(f);
  }

  lemma {:induction false} TwoTallCarry(i: nat)
    requires 2 <= i < 2 * RING - 1
    ensures Carry(Raw(TwoTall(), TwoTall()), i) == if i == 2 then 1 else 0
  {
    hide Raw;
    var c := Raw(TwoTall(), TwoTall());
    TwoTallRaw(i - 1);
    if i == 2 {
      TwoTallRaw(0);
      assert Carry(c, 1) == (Carry(c, 0) + c[0]) / SLOT == 0;
    } else {
      TwoTallCarry(i - 1);
    }
  }

  /** With two full 64-bit operands the slots can overflow and the product is wrong. */
  lemma OverflowExample()
    ensures Multiplied(TwoTall(), TwoTall()) != Negacyclic(TwoTall(), TwoTall())
  {
    var p := TwoTall();
    hide Raw, NegaAt;
    TwoTallCarry(2);
    TwoTallCarry(2 + RING);
    PolyMulCorrectIff(p, p);
    assert !Cong(CarryInto(Raw(p, p), 2), CarryInto(Raw(p, p), 2 + RING), Q);
  }

  // ---------------------------------------------------------------------
  // GLWE encryption
  // ---------------------------------------------------------------------

  ghost function MaskSum(masks: seq<poly>, keys: seq<poly>, count: nat, j: nat): int
    requires count <= |masks| && count <= |keys| && j < RING
  {
    if count == 0 then 0
    else MaskSum(masks, keys, count - 1, j) + Negacyclic(masks[count - 1], keys[count - 1])[j]
  }

  ghost predicate Tracks(x: seq<int>, masks: seq<poly>, keys: seq<poly>, count: nat)
    requires count <= |masks| && count <= |keys|
  {
    |x| == RING && forall j :: 0 <= j < RING ==> Cong(x[j], MaskSum(masks, keys, count, j), Q)
  }

  /** Adds up the products of masks and keys. */
  method MaskedBody(masks: seq<poly>, keys: seq<poly>) returns (aS: seq<int>)
    requires |masks| == |keys|
    requires forall t :: 0 <= t < |masks| ==> Masked(masks[t], keys[t])
    ensures Tracks(aS, masks, keys, |masks|)
  {
    hide Negacyclic, Multiplied, Tracks;
    aS := seq(RING, _ => 0);
    TracksStart(masks, keys);
    for t := 0 to |masks|
      invariant Tracks(aS, masks, keys, t)
    {
      var product := PolyMul(masks[t], keys[t]);
      MaskedNegacyclic(masks[t], keys[t]);
      TracksStep(aS, masks, keys, t);
      aS := PolyAdd(aS, product);
    }
  }

  lemma TracksStart(masks: seq<poly>, keys: seq<poly>)
    ensures Tracks(seq(RING, _ => 0), masks, keys, 0)
  {
  }

  lemma TracksStep(x: seq<int>, masks: seq<poly>, keys: seq<poly>, t: nat)
    requires t < |masks| && t < |keys| && Tracks(x, masks, keys, t)
    ensures Tracks(PolyAdd(x, Negacyclic(masks[t], keys[t])), masks, keys, t + 1)
  {
    hide Cong, RedQ, Negacyclic;
    forall j | 0 <= j < RING
      ensures Cong(PolyAdd(x, Negacyclic(masks[t], keys[t]))[j], MaskSum(masks, keys, t + 1, j), Q)
    {
      TracksStepAt(x, masks, keys, t, j);
    }
  }

  lemma TracksStepAt(x: seq<int>, masks: seq<poly>, keys: seq<poly>, t: nat, j: nat)
    requires t < |masks| && t < |keys| && |x| == RING && j < RING
    requires Cong(x[j], MaskSum(masks, keys, t, j), Q)
    ensures Cong(PolyAdd(x, Negacyclic(masks[t], keys[t]))[j], MaskSum(masks, keys, t + 1, j), Q)
  {
    hide Cong, RedQ, Negacyclic, PolyAdd;
    AccumulateCong(x[j], Negacyclic(masks[t], keys[t])[j], MaskSum(masks, keys, t, j));
  }

  /** Body minus masks times keys is message plus noise. */
  method GlweEncrypt(masks: seq<poly>, keys: seq<poly>, mu: poly, noise: poly) returns (body: poly)
    requires |masks| == |keys|
    requires forall t :: 0 <= t < |masks| ==> Masked(masks[t], keys[t])
    ensures forall j :: 0 <= j < RING ==>
              Cong(body[j] - MaskSum(masks, keys, |masks|, j), mu[j] + noise[j], Q) && 0 <= body[j] < Q
  {
    hide Cong, RedQ, Masked, MaskSum;
    var aS := MaskedBody(masks, keys);
    var b := seq(RING, i requires 0 <= i < RING => RedQ(aS[i] + (mu[i] + noise[i])));
    forall j | 0 <= j < RING
      ensures Cong(b[j] - MaskSum(masks, keys, |masks|, j), mu[j] + noise[j], Q)
    {
      AccumulateCong(aS[j], mu[j] + noise[j], MaskSum(masks, keys, |masks|, j));
      CongMove(b[j], MaskSum(masks, keys, |masks|, j), mu[j] + noise[j]);
    }
    body := b;
  }

  /** One masked addition keeps an accumulator congruent to its exact value. */
  lemma AccumulateCong(x: int, y: int, exact: int)
    requires Cong(x, exact, Q)
    ensures Cong(RedQ(x + y), exact + y, Q)
    ensures Cong(RedQ(x - y), exact - y, Q)
  {
    hide Cong, RedQ;
    CongRefl(y, Q);
    CongAdd(x, exact, y, y, Q);
    CongSub(x, exact, y, y, Q);
    RedQCong(x + y, 0);
    RedQCong(x - y, 0);
    CongTrans(RedQ(x + y), x + y, exact + y, Q);
    CongTrans(RedQ(x - y), x - y, exact - y, Q);
  }

  lemma CongMove(x: int, m: int, e: int)
    requires Cong(x, m + e, Q)
    ensures Cong(x - m, e, Q)
  {
    hide Cong;
    CongRefl(m, Q);
    CongSub(x, m + e, m, m, Q);
  }

  function PolyAdd(a: seq<int>, b: seq<int>): (r: seq<int>)
    ensures |r| == (if |a| < |b| then |a| else |b|)
    ensures forall i {:trigger r[i]} :: 0 <= i < |r| ==> r[i] == RedQ(a[i] + b[i])
  {
    var n := if |a| < |b| then |a| else |b|;
    seq(n, i requires 0 <= i < n => RedQ(a[i] + b[i]))
  }

  // ---------------------------------------------------------------------
  // LWE encryption
  // ---------------------------------------------------------------------

  datatype Lwe = Lwe(a: seq<int>, b: int)

  function Shorter(a: seq<int>, s: seq<int>): nat {
    if |a| < |s| then |a| else |s|
  }

  ghost function DotTerm(a: seq<int>, s: seq<int>): int -> int {
    i => At(a, i) * At(s, i)
  }

  ghost function Dot(a: seq<int>, s: seq<int>): int {
    Sum(DotTerm(a, s), Shorter(a, s))
  }

  /** The body is message plus noise plus mask times key, modulo 2^64. */
  method LweEncrypt(a: seq<int>, s: seq<int>, mu: int, noise: int) returns (c: Lwe)
    ensures c.a == a && c.b == RedQ(mu + noise + Dot(a, s))
  {
    hide RedQ, Cong;
    var b := mu + noise;
    ghost var f := DotTerm(a, s);
    CongRefl(b, Q);
    for i := 0 to Shorter(a, s)
      invariant Cong(b, mu + noise + Sum(f, i), Q)
    {
      var next := RedQ(b + a[i] * s[i]);
      AccumulateCong(b, a[i] * s[i], mu + noise + Sum(f, i));
      b := next;
    }
    RedQCong(b, mu + noise + Dot(a, s));
    c := Lwe(a, RedQ(b));
  }

  method EncryptCiphertext(s: seq<int>, m: int, a: seq<int>, noise: int) returns (c: Lwe)
    ensures c.a == a && c.b == RedQ(DELTA * (m % P) + noise + Dot(a, s))
  {
    RedQSmall(DELTA * (m % P));
    c := LweEncrypt(a, s, RedQ(DELTA * (m % P)), noise);
  }

  lemma RedQSmall(x: int)
    requires 0 <= x < Q
    ensures RedQ(x) == x
  {
  }

  /** Rounds a phase to the nearest multiple of DELTA, modulo the five messages. */
  function Rounded(phase: int): int {
    ((RedQ(phase) * P + Q / 2) / Q) % P
  }

  method DecryptCiphertext(s: seq<int>, c: Lwe) returns (m: int)
    ensures m == Rounded(c.b - Dot(c.a, s))
  {
    hide RedQ, Cong;
    var phase := c.b;
    ghost var f := DotTerm(c.a, s);
    CongRefl(phase, Q);
    for i := 0 to Shorter(c.a, s)
      invariant Cong(phase, c.b - Sum(f, i), Q)
    {
      var next := RedQ(phase - c.a[i] * s[i]);
      AccumulateCong(phase, c.a[i] * s[i], c.b - Sum(f, i));
      phase := next;
    }
    RedQCong(phase, c.b - Dot(c.a, s));
    m := ((RedQ(phase) * P + Q / 2) / Q) % P;
  }

  /** How many messages the noise e pushes message m away from itself. */
  function Slip(m: int, e: int): int {
    (5 * e - m + Q / 2) / Q
  }

  lemma RoundedPhase(m: int, e: int)
    requires 0 <= m < P
    ensures Rounded(DELTA * m + e) == (m + Slip(m, e)) % P
  {
    var x := DELTA * m + e;
    var k := x / Q;
    assert RedQ(x) == x - k * Q;
    assert RedQ(x) * P + Q / 2 == (m - 5 * k) * Q + (5 * e - m + Q / 2);
    QuotientShift(m - 5 * k, 5 * e - m + Q / 2);
    ShiftByFive(m + Slip(m, e), k);
  }

  lemma QuotientShift(t: int, y: int)
    ensures (t * Q + y) / Q == t + y / Q
  {
  }

  lemma ShiftByFive(x: int, k: int)
    ensures (x - 5 * k) % P == x % P
  {
  }

  /** The masks cancel: what decryption rounds is the message plus the noise, whatever mask and key. */
  lemma MaskCancels(mu: int, noise: int, d: int)
    ensures Rounded(RedQ(mu + noise + d) - d) == Rounded(mu + noise)
  {
    hide RedQ, Cong;
    var x := mu + noise;
    RedQCong(x + d, 0);
    CongRefl(d, Q);
    CongSub(RedQ(x + d), x + d, d, d, Q);
    RedQCong(RedQ(x + d) - d, x);
  }

  /** Decryption returns the message exactly when the noise slips by a multiple of five messages. */
  method DecryptOfEncrypt(s: seq<int>, m: int, a: seq<int>, noise: int) returns (r: int)
    ensures r == (m % P + Slip(m % P, noise)) % P
    ensures r == m % P <==> Slip(m % P, noise) % P == 0
  {
    var c := EncryptCiphertext(s, m, a, noise);
    r := DecryptCiphertext(s, c);
    MaskCancels(DELTA * (m % P), noise, Dot(a, s));
    RoundedPhase(m % P, noise);
    SlipCongruence(m % P, Slip(m % P, noise));
  }

  lemma SlipCongruence(m: int, t: int)
    requires 0 <= m < P
    ensures (m + t) % P == m <==> t % P == 0
  {
  }

  /** Within half a turn either way, the exact bound on the noise. */
  lemma NoiseBound(m: int, e: int)
    requires 0 <= m < P
    requires -4 * Q <= 5 * e - m + Q / 2 < 5 * Q
    ensures Slip(m, e) % P == 0 <==> m - Q / 2 <= 5 * e < Q / 2 + m
  {
    var y := 5 * e - m + Q / 2;
    var t := y / Q;
    assert -4 <= t < 5;
    assert t % P == 0 <==> t == 0;
  }
}
