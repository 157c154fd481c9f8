/**
 What each calculator command does to the slots, without the definitions that
 specify the buffers: typed coefficients, values of polynomials at every point,
 and the 8-bit lengths.
 */
module Commands {
  import opened Machine
  import opened ModArith
  import opened Polynomials
  import opened Transform
  import opened Calculator

  ghost predicate OthersSame(m: seq<Slot>, r: seq<Slot>, i: int) {
    |r| == |m| && forall k :: 0 <= k < |m| && k != i ==> r[k] == m[k]
  }

  /** Reading stores the typed coefficients modulo 2281701377, zero for what could not be read. */
  lemma ReadStores(m: seq<Slot>, idx: int, deg: int, input: seq<uint32>)
    requires |m| == 64 && idx >= 0 && deg >= 0
    ensures var r := Step(m, Read(idx, deg, input));
            if idx < 64 && deg <= 16 then
              && OthersSame(m, r, idx) && r[idx].Held? && r[idx].len == deg + 1 && |r[idx].poly| == deg + 1
              && forall k :: 0 <= k <= deg ==>
                               r[idx].poly[k] == if k < |input| then input[k] as int % 2281701377 else 0
            else r == m
  {
  }

  /** Multiplying makes the destination the product of both slots: its values are the products of theirs. */
  lemma MultiplyStores(m: seq<Slot>, a: nat, dest: nat, x: int)
    requires |m| == 64 && IsHeld(m, a) && IsHeld(m, dest)
    ensures var r := Step(m, Multiply(a, dest));
            && OthersSame(m, r, dest) && r[dest].Held? && Canonical(r[dest].poly)
            && |r[dest].poly| == ProductLength(m[a].poly, m[dest].poly)
            && Cong(Eval(r[dest].poly, x), Eval(m[a].poly, x) * Eval(m[dest].poly, x), 2281701377)
            && 0 <= r[dest].len < 256 && Cong(r[dest].len, m[a].len + m[dest].len - 1, 256)
  {
    var p, q := m[a].poly, m[dest].poly;
    EvalProduct(p, q, x);
    EvalRedAll(Product(p, q), x);
    CongSelfMod(m[a].len + m[dest].len - 1, 256);
    assert Canonical(PolyMul(p, q));
    hide Cong, Eval, Product;
  }

  /** Adding makes the destination, which may be empty, the sum of both slots. */
  lemma AddStores(m: seq<Slot>, a: nat, b: nat, dest: nat, x: int)
    requires |m| == 64 && IsHeld(m, a) && IsHeld(m, b) && dest < 64
    ensures var r := Step(m, Add(a, b, dest));
            && OthersSame(m, r, dest) && r[dest].Held? && Canonical(r[dest].poly)
            && Cong(Eval(r[dest].poly, x), Eval(m[a].poly, x) + Eval(m[b].poly, x), 2281701377)
            && r[dest].len >= m[a].len && r[dest].len >= m[b].len
            && (r[dest].len == m[a].len || r[dest].len == m[b].len)
            && |r[dest].poly| == Longer(m[a].poly, m[b].poly)
  {
    var p, q := m[a].poly, m[b].poly;
    EvalPlus(p, q, x);
    EvalRedAll(Plus(p, q), x);
    assert Canonical(PolyAdd(p, q));
    hide Cong, Eval, Plus;
  }

  /** A command on a slot that holds nothing, or outside the table, changes nothing; nor does show. */
  lemma CommandIgnored(m: seq<Slot>, a: nat, b: nat, dest: nat)
    requires |m| == 64
    ensures Step(m, Show(a)) == m
    ensures !IsHeld(m, a) || dest >= 64 ==> Defined(m, Multiply(a, dest)) && Step(m, Multiply(a, dest)) == m
    ensures !IsHeld(m, a) || !IsHeld(m, b) || dest >= 64 ==> Step(m, Add(a, b, dest)) == m
  {
  }

  /** Show prints as many coefficients as the stored length says, but no more than 128. */
  lemma ShowLength(m: seq<Slot>, idx: nat)
    requires |m| == 64 && forall i :: 0 <= i < |m| && m[i].Held? ==> m[i].len >= 0
    ensures Printed(m, idx).Some? <==> idx < 64 && m[idx].Held?
    ensures idx < 64 && m[idx].Held? ==> |Printed(m, idx).value| == if m[idx].len > 128 then 128 else m[idx].len
  {
    if IsHeld(m, idx) {
      ReducedLength(m[idx].poly);
    }
  }

  // ---------------------------------------------------------------------
  // Stored lengths
  // ---------------------------------------------------------------------

  /** Slot 0 squared n times. */
  ghost function Squared(m: seq<Slot>, n: nat): (r: seq<Slot>)
    requires |m| == 64 && IsHeld(m, 0)
    ensures |r| == 64 && IsHeld(r, 0)
  {
    if n == 0 then m else Step(Squared(m, n - 1), Multiply(0, 0))
  }

  lemma SquareLength(was: int, len: int, e: int)
    requires len == (was + was - 1) % 256 && Cong(was, e + 1, 256)
    ensures 0 <= len < 256 && Cong(len, 2 * e + 1, 256)
  {
    CongSelfMod(was + was - 1, 256);
    hide Cong;
    CongAdd(was, e + 1, was, e + 1, 256);
    CongRefl(1, 256);
    CongSub(was + was, (e + 1) + (e + 1), 1, 1, 256);
    CongTrans(len, was + was - 1, 2 * e + 1, 256);
  }

  /** The stored length after reading a polynomial of degree d and squaring it n times: d * 2^n + 1 modulo 256. */
  lemma {:induction false} SquaredLength(m: seq<Slot>, d: nat, n: nat)
    requires |m| == 64 && IsHeld(m, 0) && m[0].len == d + 1 && d < 128
    ensures Squared(m, n)[0].len == (d * Pow(2, n) + 1) % 256
  {
    hide Cong, PolyMul;
    if n == 0 {
      PowZero(2);
    } else {
      var was := Squared(m, n - 1)[0].len;
      SquaredLength(m, d, n - 1);
      PowNext(2, n);
      hide Pow;
      var e := d * Pow(2, n - 1);
      MulShuffle(d, 2, Pow(2, n - 1));
      CongSelfMod(e + 1, 256);
      SquareLength(was, Squared(m, n)[0].len, e);
      SameLength(Squared(m, n)[0].len, d * Pow(2, n) + 1);
    }
  }

  lemma SameLength(len: int, x: int)
    requires 0 <= len < 256 && Cong(len, x, 256)
    ensures len == x % 256
  {
    ModSmall(len, 256);
  }

  /** Reading x^16 and squaring it four times stores length 1, so show prints one coefficient of x^256. */
  lemma LengthWraps(m: seq<Slot>)
    requires |m| == 64 && IsHeld(m, 0) && m[0].len == 17
    ensures Squared(m, 4)[0].len == 1
  {
    hide PolyMul;
    SquaredLength(m, 16, 4);
    assert Pow(2, 4) == 16;
  }
}
