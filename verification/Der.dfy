/**
 The DER half of trusted_hash_attester's tpm.rs: what it writes, and an
 independent reader that accepts only the distinguished encoding of section
 8.1.3, 8.3 and 10.1 of ITU-T X.690 (minimal lengths, minimal integers).
 */
module Der {
  import opened Bits
  import opened Options

  const INTEGER: byte := 0x02
  const BIT_STRING: byte := 0x03
  const NULL: byte := 0x05
  const OBJECT_IDENTIFIER: byte := 0x06
  const SEQUENCE: byte := 0x30

  const RSA_ENCRYPTION: seq<byte> := [0x2a, 0x86, 0x48, 0x86, 0xf7, 0x0d, 0x01, 0x01, 0x01]

  /** A byte string read as a big-endian number. */
  function Value(b: seq<byte>): nat
    decreases |b|
  {
    if b == [] then 0 else Value(b[..|b| - 1]) * 0x100 + b[|b| - 1] as int
  }

  // ---------------------------------------------------------------------
  // What is written
  // ---------------------------------------------------------------------

  /** The first nonzero byte, or else the last byte. */
  function FirstNonZero(b: seq<byte>): (k: nat)
    ensures k <= |b| && (b != [] ==> k < |b|)
    ensures forall i :: 0 <= i < k ==> b[i] == 0
    ensures k + 1 < |b| ==> b[k] != 0
  {
    if |b| <= 1 || b[0] != 0 then 0 else 1 + FirstNonZero(b[1..])
  }

  function IntegerBody(value: seq<byte>): seq<byte> {
    var digits := value[FirstNonZero(value)..];
    if digits != [] && digits[0] >= 0x80 then [0] + digits else digits
  }

  /** The four bytes of a length cast to 32 bits. */
  function Bytes4(n: nat): (b: seq<byte>)
    ensures |b| == 4
  {
    var n1 := n / 0x100;
    var n2 := n1 / 0x100;
    var n3 := n2 / 0x100;
    [n3 % 0x100, n2 % 0x100, n1 % 0x100, n % 0x100]
  }

  function LengthBytes(n: nat): (b: seq<byte>)
    ensures b != []
  {
    if n < 128 then [n]
    else
      var bytes := Bytes4(n);
      var first := FirstNonZero(bytes);
      [0x80 + (4 - first)] + bytes[first..]
  }

  function Tlv(tag: byte, body: seq<byte>): seq<byte> {
    [tag] + LengthBytes(|body|) + body
  }

  /** SubjectPublicKeyInfo of an RSA key, from the bytes of its modulus and exponent. */
  function Spki(modulus: seq<byte>, exponent: seq<byte>): seq<byte> {
    var key := Tlv(SEQUENCE, Tlv(INTEGER, IntegerBody(modulus)) + Tlv(INTEGER, IntegerBody(exponent)));
    var algorithm := Tlv(SEQUENCE, Tlv(OBJECT_IDENTIFIER, RSA_ENCRYPTION) + Tlv(NULL, []));
    Tlv(SEQUENCE, algorithm + Tlv(BIT_STRING, [0] + key))
  }

  // ---------------------------------------------------------------------
  // The reader
  // ---------------------------------------------------------------------

  /** A minimal definite length and the number of bytes it takes. */
  function ReadLength(data: seq<byte>): (r: Option<(nat, nat)>)
    ensures r.Some? ==> 1 <= r.value.1 <= |data|
  {
    if data == [] then None
    else if data[0] < 0x80 then Some((data[0] as int, 1))
    else
      var k := data[0] as int - 0x80;
      if k == 0 || k == 0x7F || |data| < 1 + k || data[1] == 0 || Value(data[1..1 + k]) < 128 then None
      else Some((Value(data[1..1 + k]), 1 + k))
  }

  /** The contents of the first element and what follows it. */
  function ReadTlv(tag: byte, data: seq<byte>): (r: Option<(seq<byte>, seq<byte>)>)
  {
    if data == [] || data[0] != tag then None
    else
      match ReadLength(data[1..])
      case None => None
      case Some(l) =>
        var start := 1 + l.1;
        if |data| < start + l.0 then None
        else Some((data[start..start + l.0], data[start + l.0..]))
  }

  /** A minimal nonnegative INTEGER. */
  function ReadInteger(data: seq<byte>): Option<(nat, seq<byte>)> {
    match ReadTlv(INTEGER, data)
    case None => None
    case Some(e) =>
      var body := e.0;
      if body == [] || body[0] >= 0x80 || (|body| > 1 && body[0] == 0 && body[1] < 0x80) then None
      else Some((Value(body), e.1))
  }

  predicate IsRsaAlgorithm(body: seq<byte>) {
    match ReadTlv(OBJECT_IDENTIFIER, body)
    case None => false
    case Some(oid) => oid.0 == RSA_ENCRYPTION && ReadTlv(NULL, oid.1) == Some(([], []))
  }

  /** RSAPublicKey: modulus and exponent. */
  function ReadKey(data: seq<byte>): Option<(nat, nat)> {
    match ReadTlv(SEQUENCE, data)
    case None => None
    case Some(s) =>
      if s.1 != [] then None
      else
        match ReadInteger(s.0)
        case None => None
        case Some(n) =>
          match ReadInteger(n.1)
          case None => None
          case Some(e) => if e.1 == [] then Some((n.0, e.0)) else None
  }

  function ReadSpki(data: seq<byte>): Option<(nat, nat)> {
    match ReadTlv(SEQUENCE, data)
    case None => None
    case Some(s) =>
      if s.1 != [] then None
      else
        match ReadTlv(SEQUENCE, s.0)
        case None => None
        case Some(a) =>
          if !IsRsaAlgorithm(a.0) then None
          else
            match ReadTlv(BIT_STRING, a.1)
            case None => None
            case Some(b) => if b.1 == [] && b.0 != [] && b.0[0] == 0 then ReadKey(b.0[1..]) else None
  }

  // ---------------------------------------------------------------------
  // Reading back what was written
  // ---------------------------------------------------------------------

  lemma {:induction false} ValueZeros(b: seq<byte>, k: nat)
    requires k <= |b| && forall i :: 0 <= i < k ==> b[i] == 0
    ensures Value(b[k..]) == Value(b)
    decreases |b|
  {
    if k < |b| {
      var init := b[..|b| - 1];
      ValueZeros(init, k);
      assert b[k..][..|b[k..]| - 1] == init[k..];
    } else if b != [] {
      ValueZeros(b[..|b| - 1], k - 1);
      assert b[..|b| - 1][k - 1..] == [];
    }
  }

  lemma ValueAppend(b: seq<byte>, x: byte)
    ensures Value(b + [x]) == Value(b) * 0x100 + x as int
  {
    assert (b + [x])[..|b|] == b;
  }

  lemma Bytes4Value(n: nat)
    requires n < 0x1_0000_0000
    ensures Value(Bytes4(n)) == n
  {
    hide Value;
    var b := Bytes4(n);
    assert b == [] + [b[0]] + [b[1]] + [b[2]] + [b[3]];
    ValueNone();
    ValueAppend([], b[0]);
    ValueAppend([] + [b[0]], b[1]);
    ValueAppend([] + [b[0]] + [b[1]], b[2]);
    ValueAppend([] + [b[0]] + [b[1]] + [b[2]], b[3]);
  }

  lemma ValueNone()
    ensures Value([]) == 0
  {
  }

  /** Lengths below 2^32 are written minimally and read back. */
  lemma LengthRoundTrip(n: nat, rest: seq<byte>)
    requires n < 0x1_0000_0000
    ensures ReadLength(LengthBytes(n) + rest) == Some((n, |LengthBytes(n)|))
  {
    if n >= 128 {
      var bytes := Bytes4(n);
      var first := FirstNonZero(bytes);
      Bytes4Value(n);
      ValueZeros(bytes, first);
      var data := LengthBytes(n) + rest;
      assert data[1..1 + (4 - first)] == bytes[first..];
    }
  }

  lemma TlvRoundTrip(tag: byte, body: seq<byte>, rest: seq<byte>)
    requires |body| < 0x1_0000_0000
    ensures ReadTlv(tag, Tlv(tag, body) + rest) == Some((body, rest))
  {
    var data := Tlv(tag, body) + rest;
    assert data[1..] == LengthBytes(|body|) + (body + rest);
    LengthRoundTrip(|body|, body + rest);
    var start := 1 + |LengthBytes(|body|)|;
    assert data[start..start + |body|] == body && data[start + |body|..] == rest;
  }

  /** The value survives, in the only minimal form, exactly when there is a byte to write. */
  lemma IntegerRoundTrip(value: seq<byte>, rest: seq<byte>)
    requires |value| < 0x1_0000
    ensures ReadInteger(Tlv(INTEGER, IntegerBody(value)) + rest)
            == if value == [] then None else Some((Value(value), rest))
  {
    hide Tlv, ReadTlv, IntegerBody;
    BodySize(value);
    TlvRoundTrip(INTEGER, IntegerBody(value), rest);
    if value != [] {
      BodyMinimal(value);
    } else {
      BodyEmpty();
    }
  }

  lemma BodyEmpty()
    ensures IntegerBody([]) == []
  {
  }

  /** The body is the shortest nonnegative two's complement form of the value. */
  lemma BodyMinimal(value: seq<byte>)
    requires value != []
    ensures var body := IntegerBody(value);
            && body != [] && body[0] < 0x80 && (|body| > 1 && body[0] == 0 ==> body[1] >= 0x80)
            && Value(body) == Value(value)
  {
    var first := FirstNonZero(value);
    var digits := value[first..];
    var body := IntegerBody(value);
    ValueZeros(value, first);
    if body != digits {
      ValueZeros(body, 1);
      assert body[1..] == digits;
    }
  }

  lemma AlgorithmReads()
    ensures IsRsaAlgorithm(Tlv(OBJECT_IDENTIFIER, RSA_ENCRYPTION) + Tlv(NULL, []))
  {
    TlvRoundTrip(OBJECT_IDENTIFIER, RSA_ENCRYPTION, Tlv(NULL, []));
    TlvRoundTrip(NULL, [], []);
    assert Tlv(NULL, []) + [] == Tlv(NULL, []);
  }

  lemma TlvSize(tag: byte, body: seq<byte>)
    ensures |Tlv(tag, body)| <= |body| + 6
  {
  }

  lemma KeyRoundTrip(modulus: seq<byte>, exponent: seq<byte>)
    requires |modulus| < 0x1_0000 && 0 < |exponent| < 0x1_0000
    ensures ReadKey(Tlv(SEQUENCE, Tlv(INTEGER, IntegerBody(modulus)) + Tlv(INTEGER, IntegerBody(exponent))))
            == if modulus == [] then None else Some((Value(modulus), Value(exponent)))
  {
    hide Tlv, ReadTlv, IntegerBody;
    var m, e := Tlv(INTEGER, IntegerBody(modulus)), Tlv(INTEGER, IntegerBody(exponent));
    BodySize(modulus);
    BodySize(exponent);
    TlvSize(INTEGER, IntegerBody(modulus));
    TlvSize(INTEGER, IntegerBody(exponent));
    TlvRoundTrip(SEQUENCE, m + e, []);
    assert Tlv(SEQUENCE, m + e) + [] == Tlv(SEQUENCE, m + e);
    IntegerRoundTrip(modulus, e);
    IntegerRoundTrip(exponent, []);
    assert e + [] == e;
  }

  lemma BodySize(value: seq<byte>)
    ensures |IntegerBody(value)| <= |value| + 1
  {
  }

  /** Reading the written key back gives its modulus and exponent; only an empty modulus is unreadable. */
  lemma SpkiRoundTrip(modulus: seq<byte>, exponent: seq<byte>)
    requires |modulus| < 0x1_0000 && 0 < |exponent| < 0x1_0000
    ensures ReadSpki(Spki(modulus, exponent))
            == if modulus == [] then None else Some((Value(modulus), Value(exponent)))
  {
    hide Tlv, ReadTlv, IntegerBody, ReadKey, IsRsaAlgorithm;
    var m, e := Tlv(INTEGER, IntegerBody(modulus)), Tlv(INTEGER, IntegerBody(exponent));
    var key := Tlv(SEQUENCE, m + e);
    var names := Tlv(OBJECT_IDENTIFIER, RSA_ENCRYPTION) + Tlv(NULL, []);
    var algorithm := Tlv(SEQUENCE, names);
    var bits := Tlv(BIT_STRING, [0] + key);
    BodySize(modulus);
    BodySize(exponent);
    TlvSize(INTEGER, IntegerBody(modulus));
    TlvSize(INTEGER, IntegerBody(exponent));
    TlvSize(SEQUENCE, m + e);
    TlvSize(OBJECT_IDENTIFIER, RSA_ENCRYPTION);
    TlvSize(NULL, []);
    TlvSize(SEQUENCE, names);
    TlvSize(BIT_STRING, [0] + key);
    TlvRoundTrip(SEQUENCE, algorithm + bits, []);
    assert Tlv(SEQUENCE, algorithm + bits) + [] == Tlv(SEQUENCE, algorithm + bits);
    TlvRoundTrip(SEQUENCE, names, bits);
    AlgorithmReads();
    TlvRoundTrip(BIT_STRING, [0] + key, []);
    assert bits + [] == bits;
    assert ([0] + key)[1..] == key;
    KeyRoundTrip(modulus, exponent);
  }

  // ---------------------------------------------------------------------
  // The writers, as they fill their buffers
  // ---------------------------------------------------------------------

  method Position(b: seq<byte>) returns (k: nat)
    ensures k == FirstNonZero(b)
  {
    k := 0;
    while k + 1 < |b| && b[k] == 0
      invariant 0 <= k <= |b| && (b != [] ==> k < |b|)
      invariant FirstNonZero(b) == k + FirstNonZero(b[k..])
    {
      assert b[k..][1..] == b[k + 1..];
      k := k + 1;
    }
  }

  method DerTlv(tag: byte, body: seq<byte>) returns (out: seq<byte>)
    ensures out == Tlv(tag, body)
    ensures |body| < 0x1_0000_0000 ==> ReadTlv(tag, out) == Some((body, []))
  {
    out := [tag];
    if |body| < 128 {
      out := out + [|body|];
    } else {
      var len := Bytes4(|body|);
      var first := Position(len);
      out := out + [0x80 + (4 - first)];
      out := out + len[first..];
    }
    out := out + body;
    assert out == Tlv(tag, body);
    if |body| < 0x1_0000_0000 {
      TlvRoundTrip(tag, body, []);
      assert out + [] == out;
    }
  }

  method DerIntegerPositive(value: seq<byte>) returns (out: seq<byte>)
    ensures out == Tlv(INTEGER, IntegerBody(value))
    ensures 0 < |value| < 0x1_0000 ==> ReadInteger(out) == Some((Value(value), []))
  {
    var first := Position(value);
    var body := value[first..];
    if body != [] && body[0] >= 0x80 {
      body := [0] + body;
    }
    out := DerTlv(INTEGER, body);
    if 0 < |value| < 0x1_0000 {
      IntegerRoundTrip(value, []);
      assert out + [] == out;
    }
  }

  method DerSequence(parts: seq<seq<byte>>) returns (out: seq<byte>)
    requires |parts| == 2
    ensures out == Tlv(SEQUENCE, parts[0] + parts[1])
  {
    var body: seq<byte> := [];
    for i := 0 to |parts|
      invariant body == (if i > 0 then parts[0] else []) + (if i > 1 then parts[1] else [])
    {
      body := body + parts[i];
    }
    out := DerTlv(SEQUENCE, body);
  }

  method DerBitString(value: seq<byte>) returns (out: seq<byte>)
    ensures out == Tlv(BIT_STRING, [0] + value)
  {
    var body: seq<byte> := [0];
    body := body + value;
    out := DerTlv(BIT_STRING, body);
  }

  method DerSpki(modulus: seq<byte>, exponent: seq<byte>) returns (spki: seq<byte>)
    ensures spki == Spki(modulus, exponent)
  {
    var n := DerIntegerPositive(modulus);
    var e := DerIntegerPositive(exponent);
    var key := DerSequence([n, e]);
    var oid := DerTlv(OBJECT_IDENTIFIER, RSA_ENCRYPTION);
    var absent := DerTlv(NULL, []);
    var algorithm := DerSequence([oid, absent]);
    var bits := DerBitString(key);
    spki := DerSequence([algorithm, bits]);
  }
}
