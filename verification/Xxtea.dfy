/**
 The XXTEA block cipher of uuid_stego.py on lists of 32-bit words. Each round
 visits the words in order; word p absorbs a mix of its two neighbours, which
 is why the rounds can be undone as soon as there are at least two words.
 */
module Xxtea {
  import opened ModArith
  import opened Bits

  const DELTA: int := 0x9E37_79B9

  /** The mixing function, formed wide as in Python and masked once. */
  function Mx(sum: word, y: word, z: word, p: nat, e: int, k: seq<word>): word
    requires 0 <= e < 4 && |k| >= 4
  {
    XorIndex(p % 4, e);
    Xor(Xor(z / 32, y * 4) + Xor(y / 8, z * 16), Xor(sum, y) + Xor(k[Xor(p % 4, e)], z)) % WORD
  }

  lemma XorIndex(a: nat, b: nat)
    requires a < 4 && b < 4
    ensures Xor(a, b) < 4
  {
    PowTwo(2);
    XorBound(a, b, 2);
  }

  /** The key schedule index e of a round. */
  function RoundSelector(sum: word): (e: int)
    ensures 0 <= e < 4
  {
    (sum / 4) % 4
  }

  function FixKey(k: seq<word>): (r: seq<word>)
    ensures |r| >= 4 && k <= r
    ensures forall i :: |k| <= i < |r| ==> r[i] == 0
    decreases 4 - |k|
  {
    if |k| < 4 then FixKey(k + [0]) else k
  }

  // ---------------------------------------------------------------------
  // Rounds as in-order updates
  // ---------------------------------------------------------------------

  function Next(p: nat, len: nat): nat {
    if p + 1 >= len then 0 else p + 1
  }

  function Prev(p: nat, len: nat): nat
    requires p < len
  {
    if p == 0 then len - 1 else p - 1
  }

  function MixAt(v: seq<word>, p: nat, sum: word, k: seq<word>): word
    requires p < |v| && |k| >= 4
  {
    Mx(sum, v[Next(p, |v|)], v[Prev(p, |v|)], p, RoundSelector(sum), k)
  }

  /** Words 0 .. p of one encryption round have been visited. */
  ghost function Forward(v: seq<word>, p: nat, sum: word, k: seq<word>): (r: seq<word>)
    requires p <= |v| && |k| >= 4
    ensures |r| == |v|
  {
    if p == 0 then v
    else
      var u := Forward(v, p - 1, sum, k);
      u[p - 1 := Add32(u[p - 1], MixAt(u, p - 1, sum, k))]
  }

  /** Undoes the words p .. |v| - 1 of one round, last word first. */
  ghost function Backward(v: seq<word>, p: nat, sum: word, k: seq<word>): (r: seq<word>)
    requires p <= |v| && |k| >= 4
    ensures |r| == |v|
    decreases |v| - p
  {
    if p == |v| then v
    else
      var u := Backward(v, p + 1, sum, k);
      u[p := Sub32(u[p], MixAt(u, p, sum, k))]
  }

  /** A word's own value does not enter its mix once it has a neighbour other than itself. */
  lemma MixIgnoresSelf(v: seq<word>, p: nat, x: word, sum: word, k: seq<word>)
    requires |v| >= 2 && p < |v| && |k| >= 4
    ensures MixAt(v[p := x], p, sum, k) == MixAt(v, p, sum, k)
  {
  }

  lemma {:induction false} BackwardForward(v: seq<word>, p: nat, sum: word, k: seq<word>)
    requires |v| >= 2 && p <= |v| && |k| >= 4
    ensures Backward(Forward(v, |v|, sum, k), p, sum, k) == Forward(v, p, sum, k)
    decreases |v| - p
  {
    hide MixAt, Add32, Sub32;
    if p < |v| {
      BackwardForward(v, p + 1, sum, k);
      StepCancels(Forward(v, p, sum, k), p, sum, k);
    }
  }

  lemma {:induction false} ForwardBackward(v: seq<word>, p: nat, sum: word, k: seq<word>)
    requires |v| >= 2 && p <= |v| && |k| >= 4
    ensures Forward(Backward(v, 0, sum, k), p, sum, k) == Backward(v, p, sum, k)
    decreases p
  {
    hide MixAt, Add32, Sub32;
    if p > 0 {
      ForwardBackward(v, p - 1, sum, k);
      StepRestores(Backward(v, p, sum, k), p - 1, sum, k);
    }
  }

  lemma StepRestores(u: seq<word>, p: nat, sum: word, k: seq<word>)
    requires |u| >= 2 && p < |u| && |k| >= 4
    ensures var x := u[p := Sub32(u[p], MixAt(u, p, sum, k))]; x[p := Add32(x[p], MixAt(x, p, sum, k))] == u
  {
    hide MixAt, Add32, Sub32;
    var m := MixAt(u, p, sum, k);
    MixIgnoresSelf(u, p, Sub32(u[p], m), sum, k);
    SubAdd(u[p], m);
  }

  lemma StepCancels(u: seq<word>, p: nat, sum: word, k: seq<word>)
    requires |u| >= 2 && p < |u| && |k| >= 4
    ensures var x := u[p := Add32(u[p], MixAt(u, p, sum, k))]; x[p := Sub32(x[p], MixAt(x, p, sum, k))] == u
  {
    hide MixAt, Add32, Sub32;
    var m := MixAt(u, p, sum, k);
    MixIgnoresSelf(u, p, Add32(u[p], m), sum, k);
    AddSub(u[p], m);
  }

  /** One whole round and its undoing are inverse to each other. */
  lemma RoundBijective(v: seq<word>, sum: word, k: seq<word>)
    requires |v| >= 2 && |k| >= 4
    ensures Backward(Forward(v, |v|, sum, k), 0, sum, k) == v
    ensures Forward(Backward(v, 0, sum, k), |v|, sum, k) == v
  {
    hide MixAt, Add32, Sub32;
    BackwardForward(v, 0, sum, k);
    ForwardBackward(v, |v|, sum, k);
  }

  // ---------------------------------------------------------------------
  // The round sums
  // ---------------------------------------------------------------------

  /** The value of sum after r rounds. */
  function RoundSum(r: nat): word {
    if r == 0 then 0 else (RoundSum(r - 1) + DELTA) % WORD
  }

  lemma RoundSumBack(r: nat)
    requires r > 0
    ensures (RoundSum(r) - DELTA) % WORD == RoundSum(r - 1)
  {
  }

  lemma {:induction false} RoundSumClosed(r: nat)
    ensures RoundSum(r) == (r * DELTA) % WORD
  {
    if r > 0 {
      RoundSumClosed(r - 1);
      hide Cong;
      CongSelfMod((r - 1) * DELTA, WORD);
      CongRefl(DELTA, WORD);
      CongAdd(((r - 1) * DELTA) % WORD, (r - 1) * DELTA, DELTA, DELTA, WORD);
    }
  }

  /** DELTA is odd, so its multiples do not return to zero before 2^32 rounds. */
  lemma RoundSumZero(r: nat)
    requires r < WORD
    ensures RoundSum(r) == 0 <==> r == 0
  {
    RoundSumClosed(r);
    var inv := 0x144C_BC89;
    assert (DELTA * inv) % WORD == 1;
    if RoundSum(r) == 0 {
      UnitMultiple(r, DELTA, inv, WORD);
    }
  }

  /** A multiple r * d that vanishes modulo m forces r to vanish when d has an inverse. */
  lemma UnitMultiple(r: nat, d: int, inv: int, m: int)
    requires r < m && m > 1
    requires (d * inv) % m == 1 && (r * d) % m == 0
    ensures r == 0
  {
    ZeroIffDivides(r * d, m);
    ModSmall(1, m);
    hide Cong;
    CongMulLeft(inv, r * d, 0, m);
    CongMulLeft(r, d * inv, 1, m);
    MulAssoc(r, d, inv);
    MulComm(inv, r * d);
    CongTrans(r, r * (d * inv), 0, m);
    ZeroIffDivides(r, m);
    ModSmall(r, m);
  }

  function Rounds(len: nat): nat
    requires len > 0
  {
    6 + 52 / len
  }

  ghost function EncryptRounds(v: seq<word>, r: nat, k: seq<word>): (u: seq<word>)
    requires |k| >= 4
    ensures |u| == |v|
  {
    if r == 0 then v
    else
      var w := EncryptRounds(v, r - 1, k);
      Forward(w, |w|, RoundSum(r), k)
  }

  ghost function DecryptRounds(v: seq<word>, r: nat, k: seq<word>): (u: seq<word>)
    requires |k| >= 4
    ensures |u| == |v|
    decreases r
  {
    if r == 0 then v else DecryptRounds(Backward(v, 0, RoundSum(r), k), r - 1, k)
  }

  ghost function Encrypted(v: seq<word>, k: seq<word>): (u: seq<word>)
    requires v != []
    ensures |u| == |v|
  {
    EncryptRounds(v, Rounds(|v|), FixKey(k))
  }

  ghost function Decrypted(v: seq<word>, k: seq<word>): (u: seq<word>)
    requires v != []
    ensures |u| == |v|
  {
    DecryptRounds(v, Rounds(|v|), FixKey(k))
  }

  lemma {:induction false} RoundsCancel(v: seq<word>, r: nat, k: seq<word>)
    requires |v| >= 2 && |k| >= 4
    ensures DecryptRounds(EncryptRounds(v, r, k), r, k) == v
  {
    hide Forward, Backward, RoundSum;
    if r > 0 {
      var w := EncryptRounds(v, r - 1, k);
      RoundBijective(w, RoundSum(r), k);
      RoundsCancel(v, r - 1, k);
    }
  }

  lemma {:induction false} RoundsRestore(v: seq<word>, r: nat, k: seq<word>)
    requires |v| >= 2 && |k| >= 4
    ensures EncryptRounds(DecryptRounds(v, r, k), r, k) == v
    decreases r
  {
    hide Forward, Backward, RoundSum;
    if r > 0 {
      RoundsRestore(Backward(v, 0, RoundSum(r), k), r - 1, k);
      RoundBijective(v, RoundSum(r), k);
    }
  }

  /** Encryption is onto: every list of at least two words is the encryption of its decryption. */
  lemma XxteaOnto(v: seq<word>, k: seq<word>)
    requires |v| >= 2
    ensures Encrypted(Decrypted(v, k), k) == v
  {
    RoundsRestore(v, Rounds(|v|), FixKey(k));
  }

  /** Decryption undoes encryption for every key and every list of at least two words. */
  lemma XxteaRoundTrip(v: seq<word>, k: seq<word>)
    requires |v| >= 2
    ensures Decrypted(Encrypted(v, k), k) == v
  {
    RoundsCancel(v, Rounds(|v|), FixKey(k));
  }

  // ---------------------------------------------------------------------
  // A single word
  // ---------------------------------------------------------------------

  const EMPTY_KEY: seq<word> := [0, 0, 0, 0]

  /** Under the empty key every key word is zero. */
  lemma EmptyKeyMix(sum: word, x: word, e: int)
    requires 0 <= e < 4
    ensures Mx(sum, x, x, 0, e, EMPTY_KEY)
            == Xor(Xor(x / 32, x * 4) + Xor(x / 8, x * 16), Xor(sum, x) + Xor(0, x)) % WORD
  {
    XorIndex(0, e);
    hide Xor;
    var i := Xor(0, e);
    assert i == 0 || i == 1 || i == 2 || i == 3;
    assert EMPTY_KEY[i] == 0;
  }

  lemma XorsOf20()
    ensures Xor(0, 80) == 80 && Xor(2, 320) == 322 && Xor(0, 20) == 20
    ensures Xor(DELTA, 20) == 2654435757 && Xor(402, 2654435777) == 2654435411
  {
    assert Pow(2, 5) == 32 && Pow(2, 9) == 512;
    LowXors();
    hide Xor, Pow;
    XorZero(80);
    XorSymmetric(0, 80);
    XorZero(20);
    XorSymmetric(0, 20);
    XorZero(2);
    XorSymmetric(0, 2);
    XorHigh(10, 0, 2, 5);
    XorSymmetric(2, 320);
    XorHigh(82951117, 25, 20, 5);
    XorHigh(5184444, 449, 402, 9);
    XorSymmetric(402, 2654435777);
  }

  lemma XorsOf25()
    ensures Xor(0, 100) == 100 && Xor(3, 400) == 403 && Xor(0, 25) == 25
    ensures Xor(DELTA, 25) == 2654435744 && Xor(503, 2654435769) == 2654435406
  {
    assert Pow(2, 4) == 16 && Pow(2, 5) == 32 && Pow(2, 9) == 512;
    LowXors();
    hide Xor, Pow;
    XorZero(100);
    XorSymmetric(0, 100);
    XorZero(25);
    XorSymmetric(0, 25);
    XorZero(3);
    XorSymmetric(0, 3);
    XorHigh(25, 0, 3, 4);
    XorSymmetric(3, 400);
    XorHigh(82951117, 25, 25, 5);
    XorHigh(5184444, 441, 503, 9);
    XorSymmetric(503, 2654435769);
  }

  lemma LowXors()
    ensures Xor(25, 20) == 13 && Xor(25, 25) == 0
    ensures Xor(449, 402) == 83 && Xor(441, 503) == 78
  {
    assert Xor(14, 12) == 2 && Xor(13, 15) == 2;
    assert Xor(28, 25) == 5 && Xor(27, 31) == 4;
    assert Xor(112, 100) == 20 && Xor(110, 125) == 19;
  }

  lemma MixOf20(e: int)
    requires 0 <= e < 4
    ensures Mx(DELTA, 20, 20, 0, e, EMPTY_KEY) == 2654435411
  {
    hide Xor, Mx;
    EmptyKeyMix(DELTA, 20, e);
    XorsOf20();
  }

  lemma MixOf25(e: int)
    requires 0 <= e < 4
    ensures Mx(DELTA, 25, 25, 0, e, EMPTY_KEY) == 2654435406
  {
    hide Xor, Mx;
    EmptyKeyMix(DELTA, 25, e);
    XorsOf25();
  }

  /** A single word is its own neighbour on both sides: one round from x. */
  lemma SingleWordForward(x: word)
    ensures Forward([x], 1, DELTA, EMPTY_KEY)
            == [Add32(x, Mx(DELTA, x, x, 0, RoundSelector(DELTA), EMPTY_KEY))]
  {
    hide Mx, Add32, RoundSelector;
    assert Forward([x], 0, DELTA, EMPTY_KEY) == [x];
  }

  /** Under the empty key 20 and 25 already meet after one round. */
  lemma SingleWordRound()
    ensures Forward([20], 1, DELTA, EMPTY_KEY) == Forward([25], 1, DELTA, EMPTY_KEY)
  {
    hide Xor, Mx, Forward, RoundSelector;
    SingleWordForward(20);
    SingleWordForward(25);
    MixOf20(RoundSelector(DELTA));
    MixOf25(RoundSelector(DELTA));
  }

  lemma EmptyKey()
    ensures FixKey([]) == EMPTY_KEY && RoundSum(1) == DELTA
  {
    var none: seq<word>, z: seq<word> := [], [0];
    assert none + z == z && z + z == [0, 0] && z + z + z == [0, 0, 0] && z + z + z + z == EMPTY_KEY;
    assert FixKey(EMPTY_KEY) == EMPTY_KEY;
    assert FixKey(none) == FixKey(none + z);
    assert FixKey(z) == FixKey(z + z) == FixKey(z + z + z) == FixKey(z + z + z + z);
  }

  lemma {:induction false} SingleWordRounds(r: nat)
    requires r >= 1
    ensures EncryptRounds([20], r, EMPTY_KEY) == EncryptRounds([25], r, EMPTY_KEY)
  {
    hide Forward;
    if r == 1 {
      SingleWordRound();
      EmptyKey();
      assert EncryptRounds([20], 0, EMPTY_KEY) == [20] && EncryptRounds([25], 0, EMPTY_KEY) == [25];
    } else {
      SingleWordRounds(r - 1);
    }
  }

  lemma SingleWordCollision()
    ensures Encrypted([20], []) == Encrypted([25], [])
  {
    EmptyKey();
    hide FixKey, EncryptRounds;
    SingleWordRounds(Rounds(1));
  }

  ghost predicate Decryptable(v: seq<word>, k: seq<word>)
    requires v != []
  {
    Decrypted(Encrypted(v, k), k) == v
  }

  /** So lists of n words can be decrypted, under every key, exactly when n is at least two. */
  lemma DecryptableIff(n: nat)
    requires n > 0
    ensures (forall v: seq<word>, k: seq<word> :: |v| == n ==> Decryptable(v, k)) <==> n >= 2
  {
    hide Encrypted, Decrypted;
    if n == 1 {
      SingleWordCollision();
      var a: seq<word>, b: seq<word>, k: seq<word> := [20], [25], [];
      assert a[0] != b[0];
      assert !(Decryptable(a, k) && Decryptable(b, k));
    } else {
      forall v: seq<word>, k: seq<word> | |v| == n ensures Decryptable(v, k) {
        XxteaRoundTrip(v, k);
      }
    }
  }

  // ---------------------------------------------------------------------
  // The loops
  // ---------------------------------------------------------------------

  method XxteaEncrypt(v0: seq<word>, k: seq<word>) returns (v: seq<word>)
    requires v0 != []
    ensures v == Encrypted(v0, k)
  {
    hide Mx, RoundSum, Add32, Sub32;
    v := v0;
    var n := |v| - 1;
    var key := FixKey(k);
    var z := v[n];
    var sum: word, q := 0, Rounds(|v|);
    ghost var r := 0;
    RoundSumZero(0);
    while q > 0
      invariant |v| == n + 1 && r + q == Rounds(n + 1)
      invariant sum == RoundSum(r) && z == v[n]
      invariant v == EncryptRounds(v0, r, key)
    {
      ghost var w := v;
      RoundSumNext(r);
      sum := (sum + DELTA) % WORD;
      var e := RoundSelector(sum);
      for p := 0 to n
        invariant |v| == n + 1 && v == Forward(w, p, sum, key)
        invariant z == v[Prev(p, n + 1)]
      {
        var y := v[p + 1];
        v := v[p := Add32(v[p], Mx(sum, y, z, p, e, key))];
        z := v[p];
      }
      var y := v[0];
      v := v[n := Add32(v[n], Mx(sum, y, z, n, e, key))];
      z := v[n];
      q := q - 1;
      r := r + 1;
    }
  }

  /** The loop runs until sum returns to zero, which is exactly the number of encryption rounds. */
  method XxteaDecrypt(v0: seq<word>, k: seq<word>) returns (v: seq<word>)
    requires v0 != []
    ensures v == Decrypted(v0, k)
  {
    hide Mx, RoundSum, Add32, Sub32;
    v := v0;
    var n := |v| - 1;
    var key := FixKey(k);
    var y := v[0];
    var q := Rounds(|v|);
    var sum: word := (q * DELTA) % WORD;
    ghost var r := q;
    RoundSumClosed(q);
    RoundSumZero(q);
    while sum != 0
      invariant |v| == n + 1 && 0 <= r <= q
      invariant sum == RoundSum(r) && (sum == 0 <==> r == 0) && y == v[0]
      invariant DecryptRounds(v, r, key) == Decrypted(v0, k)
      decreases r
    {
      ghost var w := v;
      var e := RoundSelector(sum);
      var p := n;
      while p > 0
        invariant 0 <= p <= n && |v| == n + 1 && v == Backward(w, p + 1, sum, key)
        invariant y == v[Next(p, n + 1)]
      {
        var z := v[p - 1];
        v := v[p := Sub32(v[p], Mx(sum, y, z, p, e, key))];
        y := v[p];
        p := p - 1;
      }
      var z := v[n];
      v := v[0 := Sub32(v[0], Mx(sum, y, z, 0, e, key))];
      y := v[0];
      RoundSumBack(r);
      RoundSumZero(r - 1);
      sum := (sum - DELTA) % WORD;
      r := r - 1;
    }
  }

  lemma RoundSumNext(r: nat)
    ensures RoundSum(r + 1) == (RoundSum(r) + DELTA) % WORD
    ensures RoundSum(0) == 0
  {
  }
}
