/**
 The flag codec of uuid_stego.py: a signed 64-bit team id is XXTEA-encrypted,
 interleaved by XOR into a 16-byte carrier, and masked with a 16-byte
 keystream. The carrier (a slice of a SHA-1 digest) and the keystream (the
 first ChaCha20 block for the key) are arbitrary 16-byte values here.
 */
module UuidStego {
  import opened ModArith
  import opened Bits
  import opened Xxtea

  datatype Result<+T> = Ok(value: T) | OutOfRange | Broken(position: nat)

  type block = s: seq<byte> | |s| == 16 witness [0, 0, 0, 0, 0, 0, 0, 0, 0, 0, 0, 0, 0, 0, 0, 0]

  // ---------------------------------------------------------------------
  // Bytes and words, little endian
  // ---------------------------------------------------------------------

  /** 1 << (8 * lane) */
  function LaneUnit(lane: nat): int
    requires lane < 4
  {
    if lane == 0 then 1 else if lane == 1 then 0x100 else if lane == 2 then 0x1_0000 else 0x100_0000
  }

  lemma LaneUnitPower(lane: nat)
    requires lane < 4
    ensures LaneUnit(lane) == Pow(2, 8 * lane)
  {
    BytePower();
    hide Pow;
    PowAdd(2, 8, 8);
    PowAdd(2, 16, 8);
    PowZero(2);
  }

  function WordAt(data: seq<byte>, j: int): (w: int) {
    At(data, 4 * j) + At(data, 4 * j + 1) * 0x100 + At(data, 4 * j + 2) * 0x1_0000 + At(data, 4 * j + 3) * 0x100_0000
  }

  ghost function Words(data: seq<byte>): (v: seq<word>)
    ensures |v| == (|data| + 3) / 4
    ensures forall j {:trigger v[j]} :: 0 <= j < |v| ==> v[j] == WordAt(data, j)
  {
    seq((|data| + 3) / 4, j requires 0 <= j < (|data| + 3) / 4 => WordAt(data, j) as word)
  }

  function LaneOf(w: word, lane: nat): byte
    requires lane < 4
  {
    (w / LaneUnit(lane)) % 0x100
  }

  ghost function Bytes(v: seq<word>): (b: seq<byte>)
    ensures |b| == 4 * |v|
    ensures forall i {:trigger b[i]} :: 0 <= i < |b| ==> b[i] == LaneOf(v[i / 4], i % 4)
  {
    seq(4 * |v|, i requires 0 <= i < 4 * |v| => LaneOf(v[i / 4], i % 4))
  }

  lemma LanesOfSum(a: byte, b: byte, c: byte, d: byte)
    ensures var w := a + b * 0x100 + c * 0x1_0000 + d * 0x100_0000;
            LaneOf(w, 0) == a && LaneOf(w, 1) == b && LaneOf(w, 2) == c && LaneOf(w, 3) == d
  {
    var u := c + d * 0x100;
    var v := b + u * 0x100;
    var w := a + v * 0x100;
    DivModUnique(v, a, 0x100);
    DivModUnique(u, b, 0x100);
    DivModUnique(d, c, 0x100);
    DivModUnique(u, a + b * 0x100, 0x1_0000);
    DivModUnique(d, a + b * 0x100 + c * 0x1_0000, 0x100_0000);
    ModSmall(d, 0x100);
    LaneValues(w, v, u, d);
  }

  lemma LaneValues(w: word, v: int, u: int, d: int)
    requires w / 0x100 == v && w / 0x1_0000 == u && w / 0x100_0000 == d
    ensures LaneOf(w, 0) == w % 0x100 && LaneOf(w, 1) == v % 0x100
            && LaneOf(w, 2) == u % 0x100 && LaneOf(w, 3) == d % 0x100
  {
  }

  lemma SumOfLanes(w: word)
    ensures w == LaneOf(w, 0) + LaneOf(w, 1) * 0x100 + LaneOf(w, 2) * 0x1_0000 + LaneOf(w, 3) * 0x100_0000
  {
    var v := w / 0x100;
    var u := v / 0x100;
    LanesOfSum(w % 0x100, v % 0x100, u % 0x100, u / 0x100);
  }

  lemma LaneOfWordAt(data: seq<byte>, i: nat)
    requires |data| % 4 == 0 && i < |data|
    ensures LaneOf(Words(data)[i / 4], i % 4) == data[i]
  {
    hide LaneOf;
    var j := i / 4;
    LanesOfSum(data[4 * j], data[4 * j + 1], data[4 * j + 2], data[4 * j + 3]);
  }

  lemma BytesOfWords(data: seq<byte>)
    requires |data| % 4 == 0
    ensures Bytes(Words(data)) == data
  {
    hide LaneOf;
    forall i | 0 <= i < |data|
      ensures Bytes(Words(data))[i] == data[i]
    {
      LaneOfWordAt(data, i);
    }
  }

  lemma WordsOfBytes(v: seq<word>)
    ensures Words(Bytes(v)) == v
  {
    hide LaneOf;
    forall j | 0 <= j < |v|
      ensures Words(Bytes(v))[j] == v[j]
    {
      SumOfLanes(v[j]);
      LaneIndex(j);
      assert Bytes(v)[4 * j] == LaneOf(v[j], 0) && Bytes(v)[4 * j + 1] == LaneOf(v[j], 1)
             && Bytes(v)[4 * j + 2] == LaneOf(v[j], 2) && Bytes(v)[4 * j + 3] == LaneOf(v[j], 3);
    }
  }

  lemma LaneIndex(j: nat)
    ensures (4 * j) / 4 == (4 * j + 1) / 4 == (4 * j + 2) / 4 == (4 * j + 3) / 4 == j
    ensures (4 * j) % 4 == 0 && (4 * j + 1) % 4 == 1 && (4 * j + 2) % 4 == 2 && (4 * j + 3) % 4 == 3
  {
  }

  /** ORs every byte into its lane of a zeroed word list. */
  method ToU32(data: seq<byte>) returns (v: seq<word>)
    ensures v == Words(data)
  {
    var n := (|data| + 3) / 4;
    v := seq(n, _ => 0);
    for i := 0 to |data|
      invariant |v| == n
      invariant forall j :: 0 <= j < n ==> v[j] == WordAt(data[..i], j)
    {
      OrLane(data, i);
      var j, lane := i / 4, i % 4;
      v := v[j := Or(v[j], data[i] * LaneUnit(lane))];
    }
    assert data[..|data|] == data;
  }

  /** OR into the lane that byte i starts is the same as appending byte i to the data. */
  lemma OrLane(data: seq<byte>, i: nat)
    requires i < |data|
    ensures 0 <= WordAt(data[..i], i / 4) && 0 <= data[i] * LaneUnit(i % 4)
    ensures Or(WordAt(data[..i], i / 4), data[i] * LaneUnit(i % 4)) == WordAt(data[..i + 1], i / 4)
    ensures forall j :: j != i / 4 ==> WordAt(data[..i + 1], j) == WordAt(data[..i], j)
  {
    var j, lane := i / 4, i % 4;
    LaneUnitPower(lane);
    assert i == 4 * j + lane;
    assert 0 <= WordAt(data[..i], j) < LaneUnit(lane);
    assert WordAt(data[..i + 1], j) == WordAt(data[..i], j) + data[i] * LaneUnit(lane);
    OrDisjoint(WordAt(data[..i], j), data[i], 8 * lane);
  }

  method ToBytes(v: seq<word>) returns (result: seq<byte>)
    ensures result == Bytes(v)
  {
    result := seq(4 * |v|, _ => 0);
    for i := 0 to 4 * |v|
      invariant |result| == 4 * |v|
      invariant forall x :: 0 <= x < i ==> result[x] == LaneOf(v[x / 4], x % 4)
    {
      result := result[i := LaneOf(v[i / 4], i % 4)];
    }
  }

  // ---------------------------------------------------------------------
  // The signed 64-bit id
  // ---------------------------------------------------------------------

  const TWO63: int := 0x8000_0000_0000_0000
  const TWO64: int := 0x1_0000_0000_0000_0000

  predicate IsInt64(t: int) {
    -TWO63 <= t < TWO63
  }

  /** Eight little-endian two's complement bytes. */
  ghost function PackQ(t: int): (b: seq<byte>)
    ensures |b| == 8
  {
    var u := t % TWO64;
    Bytes([u % WORD, u / WORD])
  }

  ghost function UnpackQ(b: seq<byte>): (t: int)
    requires |b| == 8
    ensures IsInt64(t)
  {
    var u := Words(b)[0] + Words(b)[1] * WORD;
    if u >= TWO63 then u - TWO64 else u
  }

  lemma UnpackPack(t: int)
    requires IsInt64(t)
    ensures UnpackQ(PackQ(t)) == t
  {
    var u := t % TWO64;
    var v := [u % WORD, u / WORD];
    WordsOfBytes(v);
    TwoWords(u);
    SignedResidue(t);
    hide Words, Bytes;
    assert Words(Bytes(v)) == v;
  }

  lemma SignedResidue(t: int)
    requires IsInt64(t)
    ensures t == if t % TWO64 >= TWO63 then t % TWO64 - TWO64 else t % TWO64
  {
    DivModUnique(if t < 0 then -1 else 0, if t < 0 then t + TWO64 else t, TWO64);
  }

  lemma TwoWords(u: int)
    ensures u % WORD + (u / WORD) * WORD == u
  {
  }

  lemma PackUnpack(b: seq<byte>)
    requires |b| == 8
    ensures PackQ(UnpackQ(b)) == b
  {
    hide Words, Bytes, PackQ, UnpackQ;
    var v := Words(b);
    UnpackedWords(b, v[0], v[1]);
    PackedWords(UnpackQ(b), v[0], v[1]);
    assert v == [v[0], v[1]];
    BytesOfWords(b);
  }

  lemma UnpackedWords(b: seq<byte>, low: word, high: word)
    requires |b| == 8 && Words(b)[0] == low && Words(b)[1] == high
    ensures UnpackQ(b) % TWO64 == low + high * WORD
  {
    hide Words;
    UnsignedResidue(low + high * WORD);
  }

  lemma PackedWords(t: int, low: word, high: word)
    requires t % TWO64 == low + high * WORD
    ensures PackQ(t) == Bytes([low, high])
  {
    hide Bytes;
    TwoWordsBack(low, high);
  }

  lemma TwoWordsBack(low: word, high: word)
    ensures (low + high * WORD) % WORD == low && (low + high * WORD) / WORD == high && low + high * WORD < TWO64
  {
    DivModUnique(high, low, WORD);
  }

  lemma UnsignedResidue(u: int)
    requires 0 <= u < TWO64
    ensures (if u >= TWO63 then u - TWO64 else u) % TWO64 == u
  {
    DivModUnique(if u >= TWO63 then -1 else 0, u, TWO64);
  }

  // ---------------------------------------------------------------------
  // Encryption of bytes
  // ---------------------------------------------------------------------

  /** Bytes filled up with zeros to whole words. */
  ghost function Padded(data: seq<byte>): (p: seq<byte>)
    ensures |p| == (|data| + 3) / 4 * 4
    ensures |data| % 4 == 0 ==> p == data
  {
    data + seq((|data| + 3) / 4 * 4 - |data|, _ => 0)
  }

  lemma WordsPadded(data: seq<byte>)
    ensures Words(Padded(data)) == Words(data) && Bytes(Words(data)) == Padded(data)
  {
    WordsOfPadded(data);
    hide *;
    BytesOfWords(Padded(data));
  }

  lemma WordsOfPadded(data: seq<byte>)
    ensures Words(Padded(data)) == Words(data)
  {
    hide LaneOf, Bytes, WordAt, Padded;
    forall j | 0 <= j < |Words(data)|
      ensures Words(Padded(data))[j] == Words(data)[j]
    {
      WordPadded(data, j);
    }
  }

  lemma WordPadded(data: seq<byte>, j: nat)
    ensures WordAt(Padded(data), j) == WordAt(data, j)
  {
  }

  /** The byte cipher of both encoders, which use it on 8 bytes. */
  ghost function Sealed(data: seq<byte>, key: seq<byte>): (c: seq<byte>)
    requires data != []
    ensures |c| == (|data| + 3) / 4 * 4 && (|data| == 8 ==> |c| == 8)
  {
    Bytes(Encrypted(Words(data), Words(key)))
  }

  ghost function Opened(c: seq<byte>, key: seq<byte>): (data: seq<byte>)
    requires c != []
    ensures |data| == (|c| + 3) / 4 * 4 && (|c| == 8 ==> |data| == 8)
  {
    Bytes(Decrypted(Words(c), Words(key)))
  }

  /** For more than one word, decryption undoes encryption up to the padding, and both undo each other on whole
      words. */
  lemma SealedOpened(data: seq<byte>, key: seq<byte>)
    requires |data| > 4
    ensures Opened(Sealed(data, key), key) == Padded(data)
    ensures Sealed(Opened(data, key), key) == Padded(data)
  {
    var v, k := Words(data), Words(key);
    WordsOfBytes(Encrypted(v, k));
    WordsOfBytes(Decrypted(v, k));
    XxteaRoundTrip(v, k);
    XxteaOnto(v, k);
    WordsPadded(data);
  }

  /** For a single word this fails: two different blocks of four bytes have one ciphertext under the empty key. */
  lemma SealedCollision()
    ensures Sealed([20, 0, 0, 0], []) == Sealed([25, 0, 0, 0], [])
  {
    assert Words([20, 0, 0, 0]) == [20] && Words([25, 0, 0, 0]) == [25] && Words([]) == [];
    SingleWordCollision();
  }

  // ---------------------------------------------------------------------
  // What encoding and decoding compute
  // ---------------------------------------------------------------------

  ghost function XorBlocks(a: block, b: block): (c: block)
    ensures forall x {:trigger c[x]} :: 0 <= x < 16 ==> c[x] == XorByte(a[x], b[x])
  {
    seq(16, x requires 0 <= x < 16 => XorByte(a[x], b[x]))
  }

  /** The carrier with byte i of the payload XORed into position 2i + 1. */
  ghost function Interleaved(carrier: block, payload: seq<byte>): (c: block)
    requires |payload| == 8
    ensures forall x {:trigger c[x]} :: 0 <= x < 16 ==>
              c[x] == if x % 2 == 1 then XorByte(carrier[x], payload[x / 2]) else carrier[x]
  {
    seq(16, x requires 0 <= x < 16 => if x % 2 == 1 then XorByte(carrier[x], payload[x / 2]) else carrier[x])
  }

  ghost function Encoded(carrier: block, key: seq<byte>, stream: block, t: int): block {
    XorBlocks(Interleaved(carrier, Sealed(PackQ(t), key)), stream)
  }

  /** The payload bytes read back from the odd positions. */
  ghost function Payload(carrier: block, b: block): (d: seq<byte>)
    ensures |d| == 8
    ensures forall i {:trigger d[i]} :: 0 <= i < 8 ==> d[i] == XorByte(carrier[2 * i + 1], b[2 * i + 1])
  {
    seq(8, i requires 0 <= i < 8 => XorByte(carrier[2 * i + 1], b[2 * i + 1]))
  }

  /** Position 2i for odd i is the only redundancy the decoder checks. */
  ghost predicate Intact(carrier: block, b: block) {
    carrier[2] == b[2] && carrier[6] == b[6] && carrier[10] == b[10] && carrier[14] == b[14]
  }

  /** Position 2i for even i carries the zero salt, which the decoder never looks at. */
  ghost predicate Unsalted(carrier: block, b: block) {
    carrier[0] == b[0] && carrier[4] == b[4] && carrier[8] == b[8] && carrier[12] == b[12]
  }

  /** True when the first broken position the decoder meets is the given one. */
  ghost predicate FirstBroken(carrier: block, b: block, position: nat) {
    && position in {2, 6, 10, 14}
    && carrier[position] != b[position]
    && (forall x :: 0 <= x < position && x % 4 == 2 ==> carrier[x] == b[x])
  }

  ghost predicate DecodesTo(carrier: block, key: seq<byte>, stream: block, uuid: block, r: Result<int>) {
    var b := XorBlocks(uuid, stream);
    match r
    case Ok(t) => Intact(carrier, b) && t == UnpackQ(Opened(Payload(carrier, b), key))
    case Broken(position) => FirstBroken(carrier, b, position)
    case OutOfRange => false
  }

  // ---------------------------------------------------------------------
  // Correctness of the codec
  // ---------------------------------------------------------------------

  lemma XorByteTwice(a: byte, b: byte)
    ensures XorByte(XorByte(a, b), b) == a
    ensures XorByte(a, XorByte(a, b)) == b
    ensures XorByte(a, 0) == a
  {
    XorTwice(a, b);
    XorTwice(b, a);
    XorSymmetric(a, b);
    XorSymmetric(a, Xor(a, b));
    XorZero(a);
  }

  lemma XorBlocksTwice(a: block, b: block)
    ensures XorBlocks(XorBlocks(a, b), b) == a
  {
    forall x | 0 <= x < 16 ensures XorBlocks(XorBlocks(a, b), b)[x] == a[x] {
      XorByteTwice(a[x], b[x]);
    }
  }

  lemma PayloadOfInterleaved(carrier: block, payload: seq<byte>)
    requires |payload| == 8
    ensures Payload(carrier, Interleaved(carrier, payload)) == payload
    ensures Intact(carrier, Interleaved(carrier, payload)) && Unsalted(carrier, Interleaved(carrier, payload))
  {
    hide XorByte;
    forall i | 0 <= i < 8 ensures Payload(carrier, Interleaved(carrier, payload))[i] == payload[i] {
      XorByteTwice(carrier[2 * i + 1], payload[i]);
      assert (2 * i + 1) / 2 == i;
    }
  }

  lemma InterleavedOfPayload(carrier: block, b: block)
    requires Intact(carrier, b) && Unsalted(carrier, b)
    ensures Interleaved(carrier, Payload(carrier, b)) == b
  {
    hide XorByte;
    forall x | 0 <= x < 16 ensures Interleaved(carrier, Payload(carrier, b))[x] == b[x] {
      if x % 2 == 1 {
        assert x == 2 * (x / 2) + 1;
        XorByteTwice(carrier[x], b[x]);
      } else {
        assert x in {0, 2, 4, 6, 8, 10, 12, 14};
      }
    }
  }

  /** Every flag decodes to the id it was made from. */
  lemma DecodeOfEncode(carrier: block, key: seq<byte>, stream: block, t: int, r: Result<int>)
    requires IsInt64(t)
    requires DecodesTo(carrier, key, stream, Encoded(carrier, key, stream, t), r)
    ensures r == Ok(t)
  {
    hide XorByte, PackQ, UnpackQ, Sealed, Opened;
    var mixed := Interleaved(carrier, Sealed(PackQ(t), key));
    XorBlocksTwice(mixed, stream);
    PayloadOfInterleaved(carrier, Sealed(PackQ(t), key));
    SealedOpened(PackQ(t), key);
    UnpackPack(t);
  }

  /** Distinct ids have distinct flags. */
  lemma EncodeInjective(carrier: block, key: seq<byte>, stream: block, t: int, u: int)
    requires IsInt64(t) && IsInt64(u)
    requires Encoded(carrier, key, stream, t) == Encoded(carrier, key, stream, u)
    ensures t == u
  {
    hide *;
    var b := XorBlocks(Encoded(carrier, key, stream, t), stream);
    var r := DecodeExists(carrier, key, stream, Encoded(carrier, key, stream, t));
    DecodeOfEncode(carrier, key, stream, t, r);
    DecodeOfEncode(carrier, key, stream, u, r);
  }

  /** Decoding is a total function of the UUID. */
  lemma DecodeExists(carrier: block, key: seq<byte>, stream: block, uuid: block) returns (r: Result<int>)
    ensures DecodesTo(carrier, key, stream, uuid, r)
    ensures forall r' :: DecodesTo(carrier, key, stream, uuid, r') ==> r' == r
  {
    hide XorByte, UnpackQ, Opened, Payload;
    var b := XorBlocks(uuid, stream);
    r := if Intact(carrier, b) then Ok(UnpackQ(Opened(Payload(carrier, b), key)))
    else Broken(if carrier[2] != b[2] then 2 else if carrier[6] != b[6] then 6
                else if carrier[10] != b[10] then 10 else 14);
  }

  /**
   A UUID decodes to t with an untouched salt exactly when it is the flag of t;
   with the salt unchecked, every flag has 2^32 aliases that decode alike.
   */
  lemma DecodeCharacterised(carrier: block, key: seq<byte>, stream: block, uuid: block, t: int)
    requires IsInt64(t)
    ensures DecodesTo(carrier, key, stream, uuid, Ok(t)) && Unsalted(carrier, XorBlocks(uuid, stream))
            <==> uuid == Encoded(carrier, key, stream, t)
  {
    hide XorByte, PackQ, UnpackQ, Sealed, Opened;
    var b := XorBlocks(uuid, stream);
    XorBlocksTwice(uuid, stream);
    if uuid == Encoded(carrier, key, stream, t) {
      var r := DecodeExists(carrier, key, stream, uuid);
      DecodeOfEncode(carrier, key, stream, t, r);
      XorBlocksTwice(Interleaved(carrier, Sealed(PackQ(t), key)), stream);
      PayloadOfInterleaved(carrier, Sealed(PackQ(t), key));
    } else if Intact(carrier, b) && Unsalted(carrier, b) {
      var d := Payload(carrier, b);
      InterleavedOfPayload(carrier, b);
      SealedOpened(d, key);
      PackUnpack(Opened(d, key));
    }
  }

  /** Changing only salt positions of a flag never changes what it decodes to. */
  lemma SaltUnchecked(carrier: block, key: seq<byte>, stream: block, t: int, uuid: block, r: Result<int>)
    requires IsInt64(t)
    requires forall x :: 0 <= x < 16 && x % 4 != 0 ==> uuid[x] == Encoded(carrier, key, stream, t)[x]
    requires DecodesTo(carrier, key, stream, uuid, r)
    ensures r == Ok(t)
  {
    hide XorByte, PackQ, UnpackQ, Sealed, Opened;
    var flag := Encoded(carrier, key, stream, t);
    var b, c := XorBlocks(uuid, stream), XorBlocks(flag, stream);
    forall x | 0 <= x < 16 && x % 4 != 0 ensures b[x] == c[x] {
    }
    assert Payload(carrier, b) == Payload(carrier, c) by {
      forall i | 0 <= i < 8 ensures Payload(carrier, b)[i] == Payload(carrier, c)[i] {
        assert (2 * i + 1) % 4 != 0;
      }
    }
    var r' := DecodeExists(carrier, key, stream, flag);
    DecodeOfEncode(carrier, key, stream, t, r');
  }

  // ---------------------------------------------------------------------
  // The Python loops
  // ---------------------------------------------------------------------

  method SealBytes(data: seq<byte>, key: seq<byte>) returns (c: seq<byte>)
    requires data != []
    ensures c == Sealed(data, key)
  {
    var v := ToU32(data);
    var k := ToU32(key);
    var encrypted := XxteaEncrypt(v, k);
    c := ToBytes(encrypted);
  }

  method OpenBytes(data: seq<byte>, key: seq<byte>) returns (d: seq<byte>)
    requires data != []
    ensures d == Opened(data, key)
  {
    var v := ToU32(data);
    var k := ToU32(key);
    var decrypted := XxteaDecrypt(v, k);
    d := ToBytes(decrypted);
  }

  method PackId(t: int) returns (b: seq<byte>)
    requires IsInt64(t)
    ensures b == PackQ(t)
  {
    var u := t % TWO64;
    b := ToBytes([u % WORD, u / WORD]);
  }

  /** XOR of a whole block with the keystream, as the stream cipher does it. */
  method StreamXor(data: block, stream: block) returns (out: block)
    ensures out == XorBlocks(data, stream)
  {
    hide XorByte;
    var r: seq<byte> := [];
    for x := 0 to 16
      invariant |r| == x
      invariant forall y :: 0 <= y < x ==> r[y] == XorByte(data[y], stream[y])
    {
      r := r + [XorByte(data[x], stream[x])];
    }
    out := r;
  }

  /** XORs the zero salt and the payload into the carrier. */
  method Interleave(carrier: block, payload: seq<byte>) returns (mixed: block)
    requires |payload| == 8
    ensures mixed == Interleaved(carrier, payload)
  {
    hide XorByte;
    var salt: seq<byte> := [0, 0, 0, 0];
    var slice: seq<byte> := carrier;
    for i := 0 to 8
      invariant |slice| == 16
      invariant forall x :: 0 <= x < 2 * i ==> slice[x] == Interleaved(carrier, payload)[x]
      invariant forall x :: 2 * i <= x < 16 ==> slice[x] == carrier[x]
    {
      XorByteTwice(carrier[2 * i], 0);
      if i % 2 == 0 {
        slice := slice[i * 2 := XorByte(slice[i * 2], salt[i / 2])];
      }
      slice := slice[i * 2 + 1 := XorByte(slice[i * 2 + 1], payload[i])];
    }
    mixed := slice;
  }

  method EncodeUuid(carrier: block, key: seq<byte>, stream: block, t: int) returns (r: Result<block>)
    ensures r == if IsInt64(t) then Ok(Encoded(carrier, key, stream, t)) else OutOfRange
  {
    if !IsInt64(t) {
      return OutOfRange;
    }
    var id := PackId(t);
    var encrypted := SealBytes(id, key);
    var mixed := Interleave(carrier, encrypted);
    var uuid := StreamXor(mixed, stream);
    r := Ok(uuid);
  }

  method DecodeUuid(carrier: block, key: seq<byte>, stream: block, uuid: block) returns (r: Result<int>)
    ensures DecodesTo(carrier, key, stream, uuid, r)
  {
    hide XorByte, Opened;
    var b := StreamXor(uuid, stream);
    var dec: seq<byte> := [];
    for i := 0 to 8
      invariant |dec| == i
      invariant forall y :: 0 <= y < i ==> dec[y] == XorByte(carrier[2 * y + 1], b[2 * y + 1])
      invariant forall x :: 0 <= x < 2 * i && x % 4 == 2 ==> carrier[x] == b[x]
    {
      if i % 2 != 0 && carrier[i * 2] != b[i * 2] {
        return Broken(i * 2);
      }
      dec := dec + [XorByte(carrier[2 * i + 1], b[2 * i + 1])];
    }
    assert dec == Payload(carrier, b);
    var plain := OpenBytes(dec, key);
    var v := ToU32(plain);
    var u := v[0] + v[1] * WORD;
    r := Ok(if u >= TWO63 then u - TWO64 else u);
  }
}
