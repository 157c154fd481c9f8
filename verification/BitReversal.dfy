/** The bit-reversal permutation used by the in-place transform of polys.c. */
module BitReversal {

  ghost predicate PowerOfTwo(n: int)
    decreases n
  {
    n == 1 || (n > 1 && n % 2 == 0 && PowerOfTwo(n / 2))
  }

  /** Reverses the log2(n) low binary digits of i, least significant digit first. */
  function Rev(i: int, n: int): int
    decreases n
  {
    if n <= 1 then 0 else (if i % 2 == 1 then n / 2 else 0) + Rev(i / 2, n / 2)
  }

  lemma {:induction false} RevRange(i: int, n: int)
    requires PowerOfTwo(n)
    ensures 0 <= Rev(i, n) < n
    decreases n
  {
    if n > 1 {
      RevRange(i / 2, n / 2);
    }
  }

  /** The same permutation peeled from the most significant digit. */
  lemma {:induction false} RevTop(p: int, n: int)
    requires PowerOfTwo(n) && n > 1 && 0 <= p < n
    ensures Rev(p, n) == if p >= n / 2 then 2 * Rev(p - n / 2, n / 2) + 1 else 2 * Rev(p, n / 2)
    decreases n
  {
    var h := n / 2;
    if h > 1 {
      RevTop(p / 2, h);
      if p >= h {
        assert (p - h) / 2 == p / 2 - h / 2 && (p - h) % 2 == p % 2;
      }
    } else {
      assert n == 2;
      assert Rev(p / 2, 1) == 0;
    }
  }

  lemma {:induction false} RevInvolution(p: int, n: int)
    requires PowerOfTwo(n) && 0 <= p < n
    ensures Rev(Rev(p, n), n) == p
    decreases n
  {
    if n > 1 {
      RevTop(p, n);
      RevInvolution(if p >= n / 2 then p - n / 2 else p, n / 2);
    }
  }

  /** The sequence read in bit-reversed order. */
  ghost function BitReversed(s: seq<int>): (t: seq<int>)
    requires PowerOfTwo(|s|)
    ensures |t| == |s|
    ensures forall i {:trigger t[i]} :: 0 <= i < |s| ==> 0 <= Rev(i, |s|) < |s| && t[i] == s[Rev(i, |s|)]
  {
    assert forall i :: 0 <= i < |s| ==> 0 <= Rev(i, |s|) < |s| by {
      forall i | 0 <= i < |s| ensures 0 <= Rev(i, |s|) < |s| {
        RevRange(i, |s|);
      }
    }
    seq(|s|, i requires 0 <= i < |s| => s[Rev(i, |s|)])
  }

  lemma BitReversedTwice(s: seq<int>)
    requires PowerOfTwo(|s|)
    ensures BitReversed(BitReversed(s)) == s
  {
    forall i | 0 <= i < |s|
      ensures BitReversed(BitReversed(s))[i] == s[i]
    {
      RevInvolution(i, |s|);
    }
  }

  /** Every second element, starting at index 0 or 1. */
  ghost function Evens(s: seq<int>): (t: seq<int>)
    ensures |t| == |s| / 2
    ensures forall i {:trigger t[i]} :: 0 <= i < |t| ==> t[i] == s[2 * i]
  {
    seq(|s| / 2, i requires 0 <= i < |s| / 2 => s[2 * i])
  }

  ghost function Odds(s: seq<int>): (t: seq<int>)
    ensures |t| == |s| / 2
    ensures forall i {:trigger t[i]} :: 0 <= i < |t| ==> t[i] == s[2 * i + 1]
  {
    seq(|s| / 2, i requires 0 <= i < |s| / 2 => s[2 * i + 1])
  }

  lemma RevDouble(i: nat, n: int)
    requires n > 1
    ensures Rev(2 * i, n) == Rev(i, n / 2)
    ensures Rev(2 * i + 1, n) == n / 2 + Rev(i, n / 2)
  {
    assert (2 * i) % 2 == 0 && (2 * i) / 2 == i;
    assert (2 * i + 1) % 2 == 1 && (2 * i + 1) / 2 == i;
  }

  /** Bit reversal turns the split into halves into the split into even and odd positions. */
  lemma BitReversedHalves(a: seq<int>, b: seq<int>)
    requires PowerOfTwo(|a|) && |a| == |b|
    ensures PowerOfTwo(|a + b|)
    ensures Evens(BitReversed(a + b)) == BitReversed(a)
    ensures Odds(BitReversed(a + b)) == BitReversed(b)
  {
    assert PowerOfTwo(|a + b|);
    hide Rev, PowerOfTwo;
    forall i | 0 <= i < |a|
      ensures BitReversed(a + b)[2 * i] == BitReversed(a)[i]
      ensures BitReversed(a + b)[2 * i + 1] == BitReversed(b)[i]
    {
      RevRange(i, |a|);
      RevDouble(i, |a + b|);
    }
  }
}
