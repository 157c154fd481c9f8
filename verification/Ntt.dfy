/**
 The in-place number-theoretic transform of polys.c, in the C code's own
 widths: 32-bit array cells, 64-bit intermediates. The newtype range checks
 are the proof that no intermediate overflows.
 */
module Ntt {
  import opened Machine
  import opened ModArith
  import opened BitReversal
  import opened Transform
  import opened Roots
  import opened TransformLaws

  const MODULUS: uint32 := 2281701377

  function Vals(s: seq<uint32>): (t: seq<int>)
    ensures |t| == |s|
    ensures forall i {:trigger t[i]} :: 0 <= i < |s| ==> t[i] == s[i] as int
  {
    seq(|s|, i requires 0 <= i < |s| => s[i] as int)
  }

  // ---------------------------------------------------------------------
  // Scalar arithmetic
  // ---------------------------------------------------------------------

  /** u + v can exceed 32 bits, so it is formed in 64 and reduced once. */
  function AddMod(u: uint32, v: uint32): (r: uint32)
    requires u < MODULUS && v < MODULUS
    ensures r < MODULUS && r as int == Red(u as int + v as int)
  {
    var add := u as uint64 + v as uint64;
    (if add >= MODULUS as uint64 then add - MODULUS as uint64 else add) as uint32
  }

  function SubMod(u: uint32, v: uint32): (r: uint32)
    requires u < MODULUS && v < MODULUS
    ensures r < MODULUS && r as int == Red(u as int - v as int)
  {
    var sub := u as uint64 + MODULUS as uint64 - v as uint64;
    (if sub >= MODULUS as uint64 then sub - MODULUS as uint64 else sub) as uint32
  }

  function MulMod(x: uint32, y: uint32): (r: uint32)
    ensures r < MODULUS && r as int == Red((x as int) * (y as int))
  {
    ProductFits(x, y);
    ((x as uint64 * y as uint64) % (MODULUS as uint64)) as uint32
  }

  lemma RedMul(x: int, y: int)
    ensures Red(Red(x) * y) == Red(x * y)
    ensures Red(x * Red(y)) == Red(x * y)
  {
    hide Cong, Red;
    RedCong(x, x);
    RedCong(y, y);
    CongMulLeft(y, Red(x), x, MOD);
    CongMulLeft(x, Red(y), y, MOD);
    RedCong(Red(x) * y, x * y);
    RedCong(x * Red(y), x * y);
  }

  /** Square-and-multiply, least significant exponent bit first. */
  method ModPow(base: uint32, exp: uint64) returns (r: uint32)
    ensures r < MODULUS && r as int == Red(Pow(base as int, exp as int))
  {
    var result: uint32 := 1;
    var cur := base % MODULUS;
    var e := exp;
    PowRedBase(base as int, e as int);
    while e > 0
      invariant result < MODULUS && cur < MODULUS
      invariant Red(result as int * Pow(cur as int, e as int)) == Red(Pow(base as int, exp as int))
    {
      ModPowStep(result as int, cur as int, e as int);
      if e % 2 == 1 {
        result := MulMod(result, cur);
      }
      cur := MulMod(cur, cur);
      e := e / 2;
    }
    r := result;
  }

  lemma PowRedBase(b: int, e: nat)
    requires b >= 0
    ensures Red(1 * Pow(b % MOD, e)) == Red(Pow(b, e))
  {
    hide Cong, Pow;
    CongSelfMod(b, MOD);
    PowCong(b % MOD, b, e, MOD);
    RedCong(Pow(b % MOD, e), Pow(b, e));
  }

  lemma PowHalve(c: int, e: nat)
    requires e > 0
    ensures Pow(c, e) == if e % 2 == 1 then c * Pow(c * c, e / 2) else Pow(c * c, e / 2)
  {
    hide Pow;
    PowPow(c, 2, e / 2);
    PowUnfold(c, 2);
    PowUnfold(c, 1);
    PowUnfold(c, e);
  }

  lemma ModPowStep(result: int, cur: int, e: nat)
    requires e > 0
    ensures Red((if e % 2 == 1 then Red(result * cur) else result) * Pow(Red(cur * cur), e / 2))
            == Red(result * Pow(cur, e))
  {
    hide Cong, Pow, Red;
    var h := e / 2;
    PowHalve(cur, e);
    RedCong(cur * cur, 0);
    PowCong(Red(cur * cur), cur * cur, h, MOD);
    var p, q := Pow(Red(cur * cur), h), Pow(cur * cur, h);
    if e % 2 == 1 {
      RedMul(result * cur, p);
      MulAssoc(result, cur, q);
    }
    var x := if e % 2 == 1 then result * cur else result;
    CongMulLeft(x, p, q, MOD);
    RedCong(x * p, x * q);
  }

  // ---------------------------------------------------------------------
  // Bit reversal in place
  // ---------------------------------------------------------------------

  /** Where position p reads from once every index below i has been visited. */
  ghost function Source(p: int, i: int, n: int): int {
    if p < i || Rev(p, n) < i then Rev(p, n) else p
  }

  ghost function Swapped(p: int, i: int, j: int): int {
    if p == i then j else if p == j then i else p
  }

  /** Visiting index i swaps it with Rev(i) exactly when that has not happened yet. */
  lemma SourceStep(p: int, i: int, n: int)
    requires PowerOfTwo(n) && 0 <= p < n && 0 <= i < n
    ensures 0 <= Rev(i, n) < n
    ensures 0 <= Source(p, i + 1, n) < n
    ensures Source(p, i + 1, n) == Source(if i < Rev(i, n) then Swapped(p, i, Rev(i, n)) else p, i, n)
  {
    hide PowerOfTwo, Rev;
    RevRange(i, n);
    RevRange(p, n);
    RevInvolution(i, n);
    RevInvolution(p, n);
  }

  /** The C test j & bit for a single-bit mask. */
  predicate HasBit(j: int, bit: int)
    requires bit > 0
  {
    (j / bit) % 2 != 0
  }

  /** Adds one to the reversed counter j: clears leading ones, sets the next digit. */
  method NextReversed(j0: nat, n: nat, ghost i: nat) returns (j: nat)
    requires PowerOfTwo(n) && i + 1 < n
    requires j0 == Rev(i, n)
    ensures j == Rev(i + 1, n)
  {
    hide HasBit, Rev;
    j := j0;
    var bit := n / 2;
    ghost var q := i;
    while HasBit(j, bit)
      invariant bit >= 1 && PowerOfTwo(2 * bit) && 0 <= q && q + 1 < 2 * bit
      invariant j == Rev(q, 2 * bit)
      invariant Rev(i + 1, n) == Rev(q + 1, 2 * bit)
      decreases bit
    {
      RevDigit(q, 2 * bit);
      j := j - bit;
      bit := bit / 2;
      q := q / 2;
    }
    RevDigit(q, 2 * bit);
    j := j + bit;
  }

  lemma HasBitTop(top: bool, low: int, bit: int)
    requires 0 <= low < bit
    ensures HasBit((if top then bit else 0) + low, bit) == top
  {
    DivModUnique(if top then 1 else 0, low, bit);
  }

  /** The leading digit of the reversed counter, and what incrementing below it does. */
  lemma RevDigit(q: nat, n: nat)
    requires n > 1 && PowerOfTwo(n) && q + 1 < n
    ensures var bit := n / 2; var j := Rev(q, n);
            && j >= 0
            && (HasBit(j, bit) ==>
                  && bit > 1 && j >= bit && PowerOfTwo(2 * (bit / 2)) && q / 2 + 1 < 2 * (bit / 2)
                  && j - bit == Rev(q / 2, bit) && Rev(q + 1, n) == Rev(q / 2 + 1, bit) && bit == 2 * (bit / 2))
            && (!HasBit(j, bit) ==> j + bit == Rev(q + 1, n))
  {
    hide HasBit;
    var bit := n / 2;
    RevRange(q / 2, bit);
    HasBitTop(q % 2 == 1, Rev(q / 2, bit), bit);
    if q % 2 == 1 {
      assert (q + 1) / 2 == q / 2 + 1 && (q + 1) % 2 == 0;
    } else {
      assert (q + 1) / 2 == q / 2 && (q + 1) % 2 == 1;
    }
  }

  /** m is what remains of o once indices below i have been visited. */
  ghost predicate Visited(o: seq<uint32>, m: seq<uint32>, i: int, n: int) {
    && |o| == |m| == n
    && forall p {:trigger m[p]} :: 0 <= p < n ==> 0 <= Source(p, i, n) < n && m[p] == o[Source(p, i, n)]
  }

  lemma VisitedStep(o: seq<uint32>, m: seq<uint32>, r: seq<uint32>, i: nat, n: nat)
    requires PowerOfTwo(n) && i < n && |r| == n
    requires Visited(o, m, i, n)
    requires forall p :: 0 <= p < n ==>
               0 <= Rev(i, n) < n && r[p] == m[if i < Rev(i, n) then Swapped(p, i, Rev(i, n)) else p]
    ensures Visited(o, r, i + 1, n)
  {
    hide Rev, PowerOfTwo, Source;
    forall p {:trigger Source(p, i + 1, n)} | 0 <= p < n
      ensures 0 <= Source(p, i + 1, n) < n && r[p] == o[Source(p, i + 1, n)]
    {
      SourceStep(p, i, n);
    }
  }

  lemma VisitedEnds(o: seq<uint32>, m: seq<uint32>, n: nat)
    requires PowerOfTwo(n) && |o| == n
    ensures Visited(o, o, 1, n)
    ensures Visited(o, m, n, n) ==> Vals(m) == BitReversed(Vals(o))
  {
    hide Rev, PowerOfTwo, Source;
    forall p {:trigger Source(p, 1, n)} | 0 <= p < n
      ensures Source(p, 1, n) == p
    {
      SourceStart(p, n);
    }
    if Visited(o, m, n, n) {
      forall p | 0 <= p < n
        ensures Vals(m)[p] == BitReversed(Vals(o))[p]
      {
        SourceStart(p, n);
      }
    }
  }

  method BitReverse(a: array<uint32>, n: nat)
    requires a.Length == n && PowerOfTwo(n)
    modifies a
    ensures Vals(a[..]) == BitReversed(Vals(old(a[..])))
  {
    hide Visited, Rev;
    ghost var o := a[..];
    RevZero(n);
    VisitedEnds(o, o, n);
    var i, j := 1, 0;
    while i < n
      invariant 1 <= i <= n
      invariant 0 <= j && j == Rev(i - 1, n)
      invariant Visited(o, a[..], i, n)
    {
      j := NextReversed(j, n, i - 1);
      RevRange(i, n);
      ghost var m := a[..];
      if i < j {
        a[i], a[j] := a[j], a[i];
      }
      VisitedStep(o, m, a[..], i, n);
      i := i + 1;
    }
    VisitedEnds(o, a[..], n);
  }

  lemma {:induction false} RevZero(n: int)
    ensures Rev(0, n) == 0
    decreases n
  {
    if n > 1 {
      RevZero(n / 2);
    }
  }

  lemma SourceStart(p: int, n: int)
    requires PowerOfTwo(n) && 0 <= p < n
    ensures 0 <= Rev(p, n) < n && Source(p, 1, n) == p && Source(p, n, n) == Rev(p, n)
  {
    RevRange(p, n);
    RevInvolution(p, n);
    RevZero(n);
  }

  // ---------------------------------------------------------------------
  // Butterfly passes
  // ---------------------------------------------------------------------

  ghost predicate Reduced(s: seq<uint32>) {
    forall i :: 0 <= i < |s| ==> s[i] < MODULUS
  }

  lemma TwiddleStep(wlen: int, j: nat)
    ensures Red(Red(Pow(wlen, j)) * wlen) == Red(Pow(wlen, j + 1))
  {
    hide Pow, Red;
    PowUnfold(wlen, j + 1);
    RedMul(Pow(wlen, j), wlen);
    MulComm(Pow(wlen, j), wlen);
  }

  lemma ButterflyScalar(u: int, x: int, wlen: int, j: nat)
    ensures Red(u + Red(x * Red(Pow(wlen, j)))) == Up(u, x, wlen, j)
    ensures Red(u - Red(x * Red(Pow(wlen, j)))) == Down(u, x, wlen, j)
  {
    hide Cong, Pow, Red;
    var t := x * Pow(wlen, j);
    RedMul(x, Pow(wlen, j));
    RedCong(t, t);
    CongRefl(u, MOD);
    CongAdd(u, u, Red(t), t, MOD);
    CongSub(u, u, Red(t), t, MOD);
    RedCong(u + Red(t), u + t);
    RedCong(u - Red(t), u - t);
  }

  /** One block of one pass: positions i .. i + len. */
  method ButterflyBlock(a: array<uint32>, i: nat, len: nat, wlen: uint32)
    requires len >= 2 && len % 2 == 0 && i + len <= a.Length
    requires Reduced(a[..]) && wlen < MODULUS
    modifies a
    ensures Reduced(a[..])
    ensures Vals(a[i..i + len]) == Butterfly(Vals(old(a[i..i + len])), wlen as int)
    ensures forall p :: 0 <= p < a.Length && !(i <= p < i + len) ==> a[p] == old(a[p])
  {
    hide Red, Pow, Up, Down, Butterflied, Butterfly;
    ghost var o := a[..];
    ghost var b := wlen as int;
    var h := len / 2;
    var w: uint32 := 1;
    PowUnfold(b, 1);
    RedOne();
    ButterfliedStart(o, i, h, b);
    for j := 0 to h
      invariant w < MODULUS && w as int == Red(Pow(b, j))
      invariant Reduced(a[..])
      invariant Butterflied(o, a[..], i, j, h, b)
      invariant forall p :: 0 <= p < a.Length && !(i <= p < i + j) && !(i + h <= p < i + h + j) ==> a[p] == o[p]
    {
      var u := a[i + j];
      var v := MulMod(a[i + j + h], w);
      ButterflyScalar(u as int, a[i + j + h] as int, b, j);
      ghost var m := a[..];
      a[i + j] := AddMod(u, v);
      a[i + j + h] := SubMod(u, v);
      ButterfliedStep(o, m, a[..], i, j, h, b);
      TwiddleStep(b, j);
      w := MulMod(w, wlen);
    }
    ButterflyBlockDone(o, a[..], i, len, b);
    assert a[i..i + len] == a[..][i..i + len] && old(a[i..i + len]) == o[i..i + len];
  }

  ghost predicate Butterflied(o: seq<uint32>, r: seq<uint32>, i: nat, j: nat, h: nat, b: int)
    requires |o| == |r| && j <= h && i + h + j <= |o|
  {
    && (forall p :: i <= p < i + j ==> r[p] as int == Up(o[p] as int, o[p + h] as int, b, p - i))
    && (forall p :: i + h <= p < i + h + j ==> r[p] as int == Down(o[p - h] as int, o[p] as int, b, p - h - i))
  }

  lemma ButterfliedStart(o: seq<uint32>, i: nat, h: nat, b: int)
    requires i + h <= |o|
    ensures Butterflied(o, o, i, 0, h, b)
  {
  }

  lemma ButterfliedStep(o: seq<uint32>, m: seq<uint32>, r: seq<uint32>, i: nat, j: nat, h: nat, b: int)
    requires |o| == |m| == |r| && j < h && i + 2 * h <= |o|
    requires Butterflied(o, m, i, j, h, b)
    requires forall p :: 0 <= p < |m| && p != i + j && p != i + j + h ==> r[p] == m[p]
    requires r[i + j] as int == Up(o[i + j] as int, o[i + j + h] as int, b, j)
    requires r[i + j + h] as int == Down(o[i + j] as int, o[i + j + h] as int, b, j)
    ensures Butterflied(o, r, i, j + 1, h, b)
  {
    hide Up, Down;
  }

  lemma ButterflyBlockDone(o: seq<uint32>, r: seq<uint32>, i: nat, len: nat, b: int)
    requires |o| == |r| && len % 2 == 0 && i + len <= |o|
    requires Butterflied(o, r, i, len / 2, len / 2, b)
    ensures Vals(r[i..i + len]) == Butterfly(Vals(o[i..i + len]), b)
  {
    hide Up, Down;
    var s, t := Vals(o[i..i + len]), Vals(r[i..i + len]);
    forall k | 0 <= k < len
      ensures t[k] == Butterfly(s, b)[k]
    {
      assert t[k] == r[i + k] as int;
    }
  }

  lemma RedOne()
    ensures Red(1) == 1
  {
  }

  // ---------------------------------------------------------------------
  // Passes over the whole array
  // ---------------------------------------------------------------------

  /** Block q of length len, or nothing when it does not fit. */
  ghost function Blk(s: seq<int>, q: int, len: int): (t: seq<int>)
    ensures t == [] || |t| == len
  {
    if 0 <= q * len && 0 < len && q * len + len <= |s| then s[q * len..q * len + len] else []
  }

  lemma BlkFits(q: nat, len: nat, cnt: nat)
    requires q < cnt
    ensures 0 <= q * len && q * len + len <= cnt * len
    ensures q * len + len == (q + 1) * len
  {
    MulMonotone(0, q, len);
    MulMonotone(q + 1, cnt, len);
  }

  ghost predicate Passed(s: seq<int>, t: seq<int>, len: nat, w: int, cnt: nat)
    requires len % 2 == 0
  {
    forall q {:trigger Blk(t, q, len)} :: 0 <= q < cnt ==> Blk(t, q, len) == Butterfly(Blk(s, q, len), w)
  }

  lemma PassedStep(o: seq<int>, m: seq<int>, r: seq<int>, len: nat, w: int, q: nat)
    requires len % 2 == 0 && len > 0 && |o| == |m| == |r| && q * len + len <= |o|
    requires Passed(o, m, len, w, q)
    requires forall p :: 0 <= p < q * len ==> r[p] == m[p]
    requires Blk(r, q, len) == Butterfly(Blk(o, q, len), w)
    ensures Passed(o, r, len, w, q + 1)
  {
    hide Butterfly, Blk;
    forall k {:trigger Blk(r, k, len)} | 0 <= k < q
      ensures Blk(r, k, len) == Blk(m, k, len)
    {
      BlkPrefix(r, m, k, len, q);
    }
  }

  lemma BlkPrefix(r: seq<int>, m: seq<int>, k: nat, len: nat, q: nat)
    requires k < q && len > 0 && |r| == |m| && q * len <= |r|
    requires forall p :: 0 <= p < q * len ==> r[p] == m[p]
    ensures Blk(r, k, len) == Blk(m, k, len)
  {
    BlkFits(k, len, q);
    var lo := k * len;
    assert r[lo..lo + len] == m[lo..lo + len];
  }

  /** One pass of butterflies of one length over every block. */
  method Pass(a: array<uint32>, len: nat, wlen: uint32, ghost cnt: nat)
    requires len >= 2 && len % 2 == 0 && cnt * len == a.Length
    requires Reduced(a[..]) && wlen < MODULUS
    modifies a
    ensures Reduced(a[..])
    ensures Passed(Vals(old(a[..])), Vals(a[..]), len, wlen as int, cnt)
  {
    hide Butterfly;
    ghost var o := Vals(a[..]);
    var i := 0;
    ghost var q := 0;
    while i < a.Length
      invariant 0 <= q <= cnt && i == q * len
      invariant Reduced(a[..])
      invariant Passed(o, Vals(a[..]), len, wlen as int, q)
      invariant forall p :: i <= p < a.Length ==> a[p] as int == o[p]
    {
      BlockExists(q, len, cnt);
      ghost var m := Vals(a[..]);
      assert Vals(a[i..i + len]) == Blk(o, q, len);
      ButterflyBlock(a, i, len, wlen);
      assert Vals(a[i..i + len]) == Blk(Vals(a[..]), q, len);
      PassedStep(o, m, Vals(a[..]), len, wlen as int, q);
      i := i + len;
      q := q + 1;
    }
    BlockCount(q, len, cnt);
  }

  lemma BlockExists(q: nat, len: nat, cnt: nat)
    requires q <= cnt && q * len < cnt * len
    ensures q < cnt && 0 <= q * len && q * len + len <= cnt * len && q * len + len == (q + 1) * len
  {
    if q < cnt {
      BlkFits(q, len, cnt);
    }
  }

  lemma BlockCount(q: nat, len: nat, cnt: nat)
    requires q <= cnt && len > 0 && q * len >= cnt * len
    ensures q == cnt
  {
    if q < cnt {
      BlkFits(q, len, cnt);
    }
  }

  // ---------------------------------------------------------------------
  // The transform
  // ---------------------------------------------------------------------

  /** What block q must hold once passes up to length len are done, b being the bit-reversed input. */
  ghost function BlkDft(b: seq<int>, q: int, len: int, invert: bool): seq<int>
    requires PowerOfTwo(len)
  {
    var s := Blk(b, q, len);
    if |s| == len then Dft(BitReversed(s), Wlen(len, invert)) else []
  }

  ghost predicate Staged(b: seq<int>, t: seq<int>, len: int, invert: bool, cnt: nat)
    requires PowerOfTwo(len)
  {
    forall q {:trigger Blk(t, q, len)} :: 0 <= q < cnt ==> Blk(t, q, len) == BlkDft(b, q, len, invert)
  }

  lemma BlkHalves(s: seq<int>, q: nat, h: nat, cnt: nat)
    requires h > 0 && q < cnt && cnt * (2 * h) == |s|
    ensures |Blk(s, q, 2 * h)| == 2 * h && |Blk(s, 2 * q, h)| == h && |Blk(s, 2 * q + 1, h)| == h
    ensures Blk(s, q, 2 * h) == Blk(s, 2 * q, h) + Blk(s, 2 * q + 1, h)
  {
    var n := 2 * h;
    BlkFits(q, n, cnt);
    assert (2 * q) * h == q * n;
    assert (2 * q + 1) * h == q * n + h;
  }

  /** After the butterflies of length 2h, every block of that length is a whole transform. */
  lemma StagedAdvance(b: seq<int>, s: seq<int>, t: seq<int>, h: int, invert: bool, cnt: nat)
    requires PowerOfTwo(h) && 2 * h <= MAX_LEN
    requires |b| == |s| == |t| == cnt * (2 * h)
    requires Staged(b, s, h, invert, 2 * cnt)
    requires Passed(s, t, 2 * h, Wlen(2 * h, invert), cnt)
    ensures PowerOfTwo(2 * h) && Staged(b, t, 2 * h, invert, cnt)
  {
    hide Wlen, Butterfly, BlkDft, PowerOfTwo, Blk, Passed;
    PowerOfTwoDouble(h);
    forall q {:trigger Blk(t, q, 2 * h)} | 0 <= q < cnt
      ensures Blk(t, q, 2 * h) == BlkDft(b, q, 2 * h, invert)
    {
      StagedAdvanceBlock(b, s, t, q, h, invert, cnt);
    }
  }

  lemma StagedAdvanceBlock(b: seq<int>, s: seq<int>, t: seq<int>, q: nat, h: int, invert: bool, cnt: nat)
    requires h > 0 && PowerOfTwo(h) && PowerOfTwo(2 * h) && 2 * h <= MAX_LEN && q < cnt
    requires |b| == |s| == cnt * (2 * h)
    requires Staged(b, s, h, invert, 2 * cnt)
    requires Passed(s, t, 2 * h, Wlen(2 * h, invert), cnt)
    ensures Blk(t, q, 2 * h) == BlkDft(b, q, 2 * h, invert)
  {
    hide Wlen, Butterfly, BlkDft, PowerOfTwo, Blk, Passed, Staged;
    StagedBlock(b, s, h, invert, 2 * cnt, 2 * q);
    StagedBlock(b, s, h, invert, 2 * cnt, 2 * q + 1);
    StagedAdvanceAt(b, s, q, h, invert, cnt);
    PassedBlock(s, t, 2 * h, Wlen(2 * h, invert), cnt, q);
  }

  lemma PowerOfTwoDouble(h: int)
    requires PowerOfTwo(h)
    ensures h > 0 && PowerOfTwo(2 * h)
  {
  }

  lemma StagedBlock(b: seq<int>, s: seq<int>, len: int, invert: bool, cnt: nat, q: nat)
    requires PowerOfTwo(len) && Staged(b, s, len, invert, cnt) && q < cnt
    ensures Blk(s, q, len) == BlkDft(b, q, len, invert)
  {
    hide Blk, BlkDft;
  }

  lemma PassedBlock(s: seq<int>, t: seq<int>, len: nat, w: int, cnt: nat, q: nat)
    requires len % 2 == 0 && Passed(s, t, len, w, cnt) && q < cnt
    ensures |Blk(s, q, len)| % 2 == 0 && Blk(t, q, len) == Butterfly(Blk(s, q, len), w)
  {
    hide Blk, Butterfly;
  }

  lemma StagedAdvanceAt(b: seq<int>, s: seq<int>, q: nat, h: int, invert: bool, cnt: nat)
    requires h > 0 && PowerOfTwo(h) && PowerOfTwo(2 * h) && 2 * h <= MAX_LEN && q < cnt
    requires |b| == |s| == cnt * (2 * h)
    requires Blk(s, 2 * q, h) == BlkDft(b, 2 * q, h, invert)
    requires Blk(s, 2 * q + 1, h) == BlkDft(b, 2 * q + 1, h, invert)
    ensures Butterfly(Blk(s, q, 2 * h), Wlen(2 * h, invert)) == BlkDft(b, q, 2 * h, invert)
  {
    hide Wlen, Butterfly, Dft, BitReversed, PowerOfTwo, Blk;
    BlkHalves(s, q, h, cnt);
    BlkHalves(b, q, h, cnt);
    BlockAdvance(Blk(b, 2 * q, h), Blk(b, 2 * q + 1, h), h, invert);
  }

  lemma BlockAdvance(lo: seq<int>, hi: seq<int>, h: int, invert: bool)
    requires h > 0 && PowerOfTwo(h) && PowerOfTwo(2 * h) && 2 * h <= MAX_LEN && |lo| == |hi| == h
    ensures Butterfly(Dft(BitReversed(lo), Wlen(h, invert)) + Dft(BitReversed(hi), Wlen(h, invert)),
                      Wlen(2 * h, invert))
            == Dft(BitReversed(lo + hi), Wlen(2 * h, invert))
  {
    hide Wlen, Butterfly, Dft, Cong, Pow, PowerOfTwo, BitReversed, Evens, Odds, HalvingRoots;
    BitReversedHalves(lo, hi);
    StageRoots(h, invert);
    CombineHalves(BitReversed(lo + hi), h, Wlen(2 * h, invert), Wlen(h, invert));
  }

  /** w is a root for length 2h and v, its square, the one for length h. */
  ghost predicate HalvingRoots(w: int, v: int, h: int) {
    Cong(w * w, v, MOD) && Cong(Pow(w, h), -1, MOD)
  }

  lemma StageRoots(h: int, invert: bool)
    requires h > 0 && PowerOfTwo(2 * h) && 2 * h <= MAX_LEN
    ensures HalvingRoots(Wlen(2 * h, invert), Wlen(h, invert), h)
  {
    hide Wlen, Cong, Pow;
    WlenSquare(2 * h, invert);
    WlenHalfTurn(2 * h, invert);
  }

  lemma CombineHalves(s: seq<int>, h: int, w: int, v: int)
    requires |s| == 2 * h && h > 0 && HalvingRoots(w, v, h)
    ensures Butterfly(Dft(Evens(s), v) + Dft(Odds(s), v), w) == Dft(s, w)
  {
    hide Butterfly, Dft, Cong, Pow, Evens, Odds;
    DftCombine(s, w, v);
  }

  lemma StagedStart(b: seq<int>, invert: bool)
    requires Canonical(b)
    ensures PowerOfTwo(1) && Staged(b, b, 1, invert, |b|)
  {
    forall q {:trigger Blk(b, q, 1)} | 0 <= q < |b|
      ensures Blk(b, q, 1) == BlkDft(b, q, 1, invert)
    {
      DftOfOne(b[q], Wlen(1, invert));
      assert Blk(b, q, 1) == [b[q]];
      assert BitReversed([b[q]]) == [b[q]];
    }
  }

  lemma DftOfOne(x: int, w: int)
    requires 0 <= x < MOD
    ensures Dft([x], w) == [x]
  {
    assert DftAt([x], w, 0) == Sum(Term([x], w, 0), 0) + x * Pow(w, 0 * 0);
    ModSmall(x, MOD);
  }

  lemma StagedEnd(s: seq<int>, b: seq<int>, t: seq<int>, invert: bool)
    requires PowerOfTwo(|s|) && |t| == |s| && b == BitReversed(s)
    requires Staged(b, t, |s|, invert, 1)
    ensures t == Dft(s, Wlen(|s|, invert))
  {
    assert Blk(t, 0, |s|) == t && Blk(b, 0, |s|) == b;
    BitReversedTwice(s);
  }

  ghost function Rescaled(t: seq<int>, c: int): (r: seq<int>)
    ensures |r| == |t|
    ensures forall i {:trigger r[i]} :: 0 <= i < |t| ==> r[i] == Red(t[i] * c)
  {
    seq(|t|, i requires 0 <= i < |t| => Red(t[i] * c))
  }

  /** The mathematical meaning of ntt(a, n, invert). */
  ghost function Transformed(s: seq<int>, invert: bool): (t: seq<int>)
    requires |s| > 0
    ensures |t| == |s|
  {
    var t := Dft(s, Wlen(|s|, invert));
    if invert then Rescaled(t, Red(Pow(|s|, MOD - 2))) else t
  }

  lemma ReducedPermuted(s: seq<uint32>, t: seq<uint32>)
    requires PowerOfTwo(|s|) && Reduced(s)
    requires Vals(t) == BitReversed(Vals(s))
    ensures Reduced(t) && Canonical(Vals(t))
  {
    forall p | 0 <= p < |t| ensures t[p] < MODULUS {
      assert Vals(t)[p] == BitReversed(Vals(s))[p];
    }
  }

  /** Multiplies every cell by the inverse of the length. */
  method Rescale(a: array<uint32>, n: nat)
    requires a.Length == n && 0 < n <= MAX_LEN
    requires Reduced(a[..])
    modifies a
    ensures Reduced(a[..])
    ensures Vals(a[..]) == Rescaled(Vals(old(a[..])), Red(Pow(n, MOD - 2)))
  {
    hide Red, Pow;
    ghost var t := Vals(a[..]);
    var nInv := ModPow(n as uint32, MODULUS as uint64 - 2);
    for i := 0 to n
      invariant Reduced(a[..])
      invariant forall p :: 0 <= p < i ==> a[p] as int == Red(t[p] * nInv as int)
      invariant forall p :: i <= p < n ==> a[p] as int == t[p]
    {
      a[i] := MulMod(a[i], nInv);
    }
  }

  /** Finds the root for one length and applies its butterflies. */
  method Stage(a: array<uint32>, n: nat, len: nat, invert: bool, ghost b: seq<int>)
    requires a.Length == n == |b| && PowerOfTwo(n) && 2 <= len <= n <= MAX_LEN
    requires len % 2 == 0 && PowerOfTwo(len / 2)
    requires Reduced(a[..])
    requires Staged(b, Vals(a[..]), len / 2, invert, n / (len / 2))
    modifies a
    ensures Reduced(a[..])
    ensures PowerOfTwo(len) && Staged(b, Vals(a[..]), len, invert, n / len)
  {
    hide Staged, Passed, Reduced, Red, Pow;
    ghost var m := Vals(a[..]);
    assert PowerOfTwo(len);
    PowerOfTwoDivides(n, len);
    DivTwice(n, len);
    var wlen := ModPow(3, (MODULUS as uint64 - 1) / len as uint64);
    if invert {
      wlen := ModPow(wlen, MODULUS as uint64 - 2);
    }
    RedDefinition(Pow(3, (MOD - 1) / len), Pow(Red(Pow(3, (MOD - 1) / len)), MOD - 2));
    Pass(a, len, wlen, n / len);
    StagedAdvance(b, m, Vals(a[..]), len / 2, invert, n / len);
  }

  lemma RedDefinition(x: int, y: int)
    ensures Red(x) == x % MOD && Red(y) == y % MOD
  {
  }

  /** Runs in place on the array of length n that polys.c passes around. */
  method NttInPlace(a: array<uint32>, n: nat, invert: bool)
    requires a.Length == n && PowerOfTwo(n) && n <= MAX_LEN
    requires Reduced(a[..])
    modifies a
    ensures Reduced(a[..])
    ensures Vals(a[..]) == Transformed(Vals(old(a[..])), invert)
    ensures !invert ==> IsForward(Vals(old(a[..])), Vals(a[..]))
  {
    ForwardMeaning(Vals(a[..]));
    hide Staged, Reduced, Rev, Dft, BitReversed, Rescaled, IsForward;
    ghost var s := Vals(a[..]);
    BitReverse(a, n);
    ghost var b := Vals(a[..]);
    ReducedPermuted(old(a[..]), a[..]);
    StagedStart(b, invert);
    var len := 2;
    while len <= n
      invariant len % 2 == 0 && len / 2 <= n && PowerOfTwo(len / 2)
      invariant Reduced(a[..])
      invariant Staged(b, Vals(a[..]), len / 2, invert, n / (len / 2))
    {
      Stage(a, n, len, invert, b);
      len := 2 * len;
    }
    LastLength(n, len / 2);
    StagedEnd(s, b, Vals(a[..]), invert);
    if invert {
      Rescale(a, n);
    }
  }

  /** s[j] times the j*k-th power of 3^((2281701377-1)/n). */
  ghost function ForwardTerm(s: seq<int>, k: int): int -> int
    requires s != []
  {
    j => At(s, j) * Pow(3, ((2281701377 - 1) / |s|) * (j * k))
  }

  /** Entry k is the sum of those, reduced. */
  ghost predicate IsForward(s: seq<int>, t: seq<int>) {
    |t| == |s| && forall k :: 0 <= k < |t| ==> s != [] && t[k] == Sum(ForwardTerm(s, k), |s|) % 2281701377
  }

  lemma ForwardMeaning(s: seq<int>)
    requires s != []
    ensures IsForward(s, Transformed(s, false))
  {
    var t := Transformed(s, false);
    hide Pow, Wlen, Sum;
    forall k | 0 <= k < |s| ensures t[k] == Sum(ForwardTerm(s, k), |s|) % 2281701377 {
      ForwardSum(s, k);
      RedCong(DftAt(s, Wlen(|s|, false), k), Sum(ForwardTerm(s, k), |s|));
      RedDefinition(DftAt(s, Wlen(|s|, false), k), Sum(ForwardTerm(s, k), |s|));
    }
  }

  lemma ForwardSum(s: seq<int>, k: nat)
    requires s != []
    ensures Cong(DftAt(s, Wlen(|s|, false), k), Sum(ForwardTerm(s, k), |s|), MOD)
  {
    hide Pow, Wlen, Sum, Cong;
    var w := Wlen(|s|, false);
    forall j | 0 <= j < |s|
      ensures Cong(Term(s, w, k)(j), ForwardTerm(s, k)(j), MOD)
    {
      var e := (MOD - 1) / |s|;
      WlenForward(|s|);
      MulMonotone(0, j, k);
      PowCong(w, Pow(3, e), j * k, MOD);
      PowPow(3, e, j * k);
      CongMulLeft(s[j], Pow(w, j * k), Pow(3, e * (j * k)), MOD);
    }
    SumCong(Term(s, w, k), ForwardTerm(s, k), |s|, MOD);
  }

  lemma WlenForward(n: nat)
    requires n > 0
    ensures Cong(Wlen(n, false), Pow(3, (2281701377 - 1) / n), MOD)
  {
    hide Pow;
    CongSelfMod(Pow(3, (MOD - 1) / n), MOD);
  }

  lemma DivTwice(n: nat, len: nat)
    requires len > 0 && len % 2 == 0 && n % len == 0
    ensures n / (len / 2) == 2 * (n / len)
    ensures (n / len) * len == n
  {
    var h, q := len / 2, n / len;
    assert n == q * len;
    assert q * (2 * h) == (2 * q) * h;
    DivModUnique(2 * q, 0, h);
  }

  lemma LastLength(n: nat, h: nat)
    requires PowerOfTwo(n) && PowerOfTwo(h) && h <= n < 2 * h
    ensures h == n && n / h == 1
  {
    PowerOfTwoDivides(n, h);
    var q := n / h;
    assert n == q * h;
    if q >= 2 {
      MulMonotone(2, q, h);
    } else if q <= 0 {
      MulMonotone(q, 0, h);
    }
    DivModUnique(1, 0, n);
  }

  /** The inverse call undoes the forward call on every canonical array. */
  lemma NttRoundTrip(s: seq<int>)
    requires PowerOfTwo(|s|) && |s| <= MAX_LEN && Canonical(s)
    ensures Transformed(Transformed(s, false), true) == s
  {
    hide Cong, Pow, Wlen, DftAt, Red;
    var n := |s|;
    var w, v, c := Wlen(n, false), Wlen(n, true), Red(Pow(n, MOD - 2));
    var t := Dft(s, w);
    if n > 1 {
      WlenHalfTurn(n, false);
      WlenHalfTurn(n, true);
    }
    WlenInverse(n);
    LengthInverse(n);
    forall k | 0 <= k < n
      ensures Transformed(Transformed(s, false), true)[k] == s[k]
    {
      DftInverse(s, w, v, k);
      RescaleCancels(DftAt(t, v, k), s[k], n, c);
    }
  }

  lemma RescaleCancels(d: int, x: int, n: int, c: int)
    requires 0 <= x < MOD
    requires Cong(d, x * n, MOD) && Cong(n * c, 1, MOD)
    ensures Red(Red(d) * c) == x
  {
    hide Cong;
    assert Red(x) == x;
    hide Red;
    RedMul(d, c);
    CongMulLeft(c, d, x * n, MOD);
    MulAssoc(x, n, c);
    CongMulLeft(x, n * c, 1, MOD);
    CongTrans(d * c, x * (n * c), x, MOD);
    RedCong(d * c, x);
  }
}
