/**
 The bytes of a flag: where the id, its cipher and the carrier go, a complete
 flag, and the position a damaged flag is reported at.
 */
module FlagBytes {
  import opened Bits
  import opened Xxtea
  import opened UuidStego
  import opened BitVectors
  import opened XxteaKnownAnswer

  /** The id is packed as its two's complement, least significant byte first. */
  lemma PackedValue(t: int)
    requires IsInt64(t)
    ensures var b := PackQ(t);
            b[0] as int + b[1] as int * 0x100 + b[2] as int * 0x1_0000 + b[3] as int * 0x100_0000
            + (b[4] as int + b[5] as int * 0x100 + b[6] as int * 0x1_0000 + b[7] as int * 0x100_0000) * 0x1_0000_0000
            == if t >= 0 then t else t + 0x1_0000_0000_0000_0000
  {
    var u := t % TWO64;
    var v := [u % WORD, u / WORD];
    WordsOfBytes(v);
    hide Bytes, Words, LaneOf;
    var b := PackQ(t);
    assert WordAt(b, 0) == v[0] && WordAt(b, 1) == v[1] by { assert Words(b)[0] == v[0] && Words(b)[1] == v[1]; }
    SignedResidue(t);
    TwoWords(u);
  }

  /** XOR of bytes is the machine's. */
  lemma XorByteIsMachine(a: byte, b: byte)
    ensures Bv(XorByte(a, b)) == Both(Bv(a), Bv(b))
  {
    hide Xor, Bv, Both;
    BvXor(a, b);
  }

  /** The cipher of the packed id 1 under the one-byte key 1. */
  lemma CipherOfOne()
    ensures Sealed(PackQ(1), [1]) == [0x1C, 0x3C, 0x67, 0x4D, 0x5C, 0x4D, 0x4F, 0x07]
  {
    var v: seq<word> := [1, 0];
    WordsOfBytes(v);
    KnownAnswer();
    OneWordKey();
    hide Encrypted, Words;
    assert PackQ(1) == Bytes(v) by { PackOne(); }
    CipherBytes();
  }

  lemma PackOne()
    ensures PackQ(1) == Bytes([1, 0])
  {
    hide Bytes;
  }

  lemma OneWordKey()
    ensures Words([1]) == [1]
  {
    assert WordAt([1], 0) == 1;
  }

  lemma CipherBytes()
    ensures Bytes([0x4D67_3C1C, 0x074F_4D5C]) == [0x1C, 0x3C, 0x67, 0x4D, 0x5C, 0x4D, 0x4F, 0x07]
  {
    var b := Bytes([0x4D67_3C1C, 0x074F_4D5C]);
    assert |b| == 8 && b[0] == 0x1C && b[1] == 0x3C && b[2] == 0x67 && b[3] == 0x4D;
    assert b[4] == 0x5C && b[5] == 0x4D && b[6] == 0x4F && b[7] == 0x07;
  }

  /** The whole flag of id 1 under that key: the cipher sits in the odd positions, and nothing but carrier and keystream
      in the even ones. */
  lemma FlagOfOne(carrier: block, stream: block)
    ensures var f := Encoded(carrier, [1], stream, 1);
            && f[0] == XorByte(carrier[0], stream[0]) && f[2] == XorByte(carrier[2], stream[2])
            && f[4] == XorByte(carrier[4], stream[4]) && f[6] == XorByte(carrier[6], stream[6])
            && f[8] == XorByte(carrier[8], stream[8]) && f[10] == XorByte(carrier[10], stream[10])
            && f[12] == XorByte(carrier[12], stream[12]) && f[14] == XorByte(carrier[14], stream[14])
    ensures var f := Encoded(carrier, [1], stream, 1);
            && f[1] == XorByte(XorByte(carrier[1], 0x1C), stream[1])
            && f[3] == XorByte(XorByte(carrier[3], 0x3C), stream[3])
            && f[5] == XorByte(XorByte(carrier[5], 0x67), stream[5])
            && f[7] == XorByte(XorByte(carrier[7], 0x4D), stream[7])
            && f[9] == XorByte(XorByte(carrier[9], 0x5C), stream[9])
            && f[11] == XorByte(XorByte(carrier[11], 0x4D), stream[11])
            && f[13] == XorByte(XorByte(carrier[13], 0x4F), stream[13])
            && f[15] == XorByte(XorByte(carrier[15], 0x07), stream[15])
  {
    hide XorByte, PackQ, Sealed;
    CipherOfOne();
  }

  /** Position 2i of every flag is carrier and keystream, position 2i + 1 also byte i of the cipher. */
  lemma FlagAt(carrier: block, key: seq<byte>, stream: block, t: int, i: nat)
    requires IsInt64(t) && i < 8
    ensures Encoded(carrier, key, stream, t)[2 * i] == XorByte(carrier[2 * i], stream[2 * i])
    ensures Encoded(carrier, key, stream, t)[2 * i + 1]
            == XorByte(XorByte(carrier[2 * i + 1], Sealed(PackQ(t), key)[i]), stream[2 * i + 1])
  {
    hide XorByte, PackQ, Sealed;
    assert (2 * i + 1) / 2 == i;
  }

  /** A UUID that first differs from a flag at one of the checked positions is reported broken there. */
  lemma BrokenAt(carrier: block, key: seq<byte>, stream: block, t: int, uuid: block, x: nat, r: Result<int>)
    requires IsInt64(t) && x in {2, 6, 10, 14} && uuid[x] != Encoded(carrier, key, stream, t)[x]
    requires forall y :: 0 <= y < x && y in {2, 6, 10} ==> uuid[y] == Encoded(carrier, key, stream, t)[y]
    requires DecodesTo(carrier, key, stream, uuid, r)
    ensures r == Broken(x)
  {
    hide XorByte, PackQ, Sealed, Opened, UnpackQ, Encoded, Payload;
    var b := XorBlocks(uuid, stream);
    forall i: nat | i < 8
      ensures Encoded(carrier, key, stream, t)[2 * i] == XorByte(carrier[2 * i], stream[2 * i])
      ensures uuid[2 * i] == Encoded(carrier, key, stream, t)[2 * i] <==> b[2 * i] == carrier[2 * i]
    {
      FlagAt(carrier, key, stream, t, i);
      XorByteTwice(carrier[2 * i], stream[2 * i]);
      XorByteTwice(uuid[2 * i], stream[2 * i]);
    }
    CheckedPositions(carrier, key, stream, t, uuid);
  }

  lemma CheckedPositions(carrier: block, key: seq<byte>, stream: block, t: int, uuid: block)
    requires forall i: nat :: i < 8 ==> (uuid[2 * i] == Encoded(carrier, key, stream, t)[2 * i]
                                         <==> XorBlocks(uuid, stream)[2 * i] == carrier[2 * i])
    ensures forall x :: x in {2, 6, 10, 14} ==> (uuid[x] == Encoded(carrier, key, stream, t)[x]
                                                 <==> XorBlocks(uuid, stream)[x] == carrier[x])
  {
    hide XorByte, Encoded, XorBlocks;
    var one, three, five, seven := 1, 3, 5, 7;
    assert 2 * one == 2 && 2 * three == 6 && 2 * five == 10 && 2 * seven == 14;
  }
}
