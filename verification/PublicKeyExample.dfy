/**
 One RSA public area with a different value in every field, followed byte by
 byte through the parser, the DER writer and the base64 writer of
 trusted_hash_attester's tpm.rs.
 */
module PublicKeyExample {
  import opened Bits
  import opened Options
  import opened Der
  import opened Pem
  import opened TpmPublic

  /** From the symmetric cipher on: AES with 128 bits in CFB, RSASSA with SHA-384, key size, exponent, modulus. */
  const DETAILS: seq<byte> :=
    [0x00, 0x06, 0x00, 0x80, 0x00, 0x43]
    + ([0x00, 0x14, 0x00, 0x0c] + ([0x08, 0x00] + ([0x00, 0x01, 0x00, 0x03] + [0x00, 0x03, 0xc1, 0xc2, 0xc3])))

  /** Size, RSA, SHA-256, attributes, policy, the rest. */
  const AREA: seq<byte> :=
    [0x00, 0x21]
    + ([0x00, 0x01] + ([0x00, 0x0b] + ([0x00, 0x03, 0x04, 0x72] + ([0x00, 0x02, 0xa1, 0xa2] + DETAILS))))

  const KEY: RsaPublic :=
    RsaPublic(0x0b, 0x3_0472, [0xa1, 0xa2], Some((128, 0x43)), Some((0x14, 0x0c)), 2048, 0x1_0003, [0xc1, 0xc2, 0xc3])

  lemma Sixteen()
    ensures Put16(0x0006) == [0x00, 0x06] && Put16(128) == [0x00, 0x80] && Put16(0x43) == [0x00, 0x43]
    ensures Put16(0x14) == [0x00, 0x14] && Put16(0x0c) == [0x00, 0x0c] && Put16(2048) == [0x08, 0x00]
    ensures Put16(0x0001) == [0x00, 0x01] && Put16(0x0003) == [0x00, 0x03] && Put16(0x0b) == [0x00, 0x0b]
    ensures Put16(0x0002) == [0x00, 0x02] && Put16(0x0472) == [0x04, 0x72] && Put16(0x21) == [0x00, 0x21]
  {
  }

  lemma PiecesWritten()
    ensures Put32(0x3_0472) == [0x00, 0x03, 0x04, 0x72] && PutSized([0xa1, 0xa2]) == [0x00, 0x02, 0xa1, 0xa2]
    ensures PutCipher(Some((128, 0x43))) == [0x00, 0x06, 0x00, 0x80, 0x00, 0x43]
    ensures PutScheme(Some((0x14, 0x0c))) == [0x00, 0x14, 0x00, 0x0c]
    ensures Put32(0x1_0003) == [0x00, 0x01, 0x00, 0x03]
    ensures PutSized([0xc1, 0xc2, 0xc3]) == [0x00, 0x03, 0xc1, 0xc2, 0xc3]
  {
    Sixteen();
    hide Put16;
  }

  /** Every field is found in its place. */
  lemma AreaParsed()
    ensures Parsed(AREA) == Some(KEY)
  {
    hide Put16, Put32, PutSized, PutCipher, PutScheme, Parsed;
    Sixteen();
    PiecesWritten();
    SizedOf(PutArea(KEY));
    assert |PutArea(KEY)| == 0x21;
    ParsedExact(AREA, KEY);
  }

  lemma ShortTlv(tag: byte, body: seq<byte>)
    requires |body| < 128
    ensures Tlv(tag, body) == [tag, |body|] + body
  {
  }

  /** A sign byte goes before the modulus; the leading zero of the exponent goes. */
  lemma IntegersWritten()
    ensures Tlv(INTEGER, IntegerBody([0xc1, 0xc2, 0xc3])) == [0x02, 0x04, 0x00, 0xc1, 0xc2, 0xc3]
    ensures Tlv(INTEGER, IntegerBody(Bytes4(0x1_0003))) == [0x02, 0x03, 0x01, 0x00, 0x03]
  {
    hide Tlv;
    assert FirstNonZero([0xc1, 0xc2, 0xc3]) == 0;
    assert IntegerBody([0xc1, 0xc2, 0xc3]) == [0x00, 0xc1, 0xc2, 0xc3];
    assert Bytes4(0x1_0003) == [0x00, 0x01, 0x00, 0x03];
    assert [0x00, 0x01, 0x00, 0x03][1..] == [0x01, 0x00, 0x03];
    assert FirstNonZero([0x01, 0x00, 0x03]) == 0;
    assert FirstNonZero([0x00, 0x01, 0x00, 0x03]) == 1;
    assert IntegerBody([0x00, 0x01, 0x00, 0x03]) == [0x01, 0x00, 0x03];
    ShortTlv(INTEGER, [0x00, 0xc1, 0xc2, 0xc3]);
    ShortTlv(INTEGER, [0x01, 0x00, 0x03]);
  }

  lemma KeyWritten()
    ensures Tlv(SEQUENCE, Tlv(INTEGER, IntegerBody([0xc1, 0xc2, 0xc3])) + Tlv(INTEGER, IntegerBody(Bytes4(0x1_0003))))
         == [0x30, 0x0b] + [0x02, 0x04, 0x00, 0xc1, 0xc2, 0xc3] + [0x02, 0x03, 0x01, 0x00, 0x03]
  {
    hide Tlv, IntegerBody, Bytes4;
    IntegersWritten();
    ShortTlv(SEQUENCE, [0x02, 0x04, 0x00, 0xc1, 0xc2, 0xc3] + [0x02, 0x03, 0x01, 0x00, 0x03]);
  }

  lemma AlgorithmWritten()
    ensures Tlv(SEQUENCE, Tlv(OBJECT_IDENTIFIER, RSA_ENCRYPTION) + Tlv(NULL, []))
         == [0x30, 0x0d] + ([0x06, 0x09] + [0x2a, 0x86, 0x48, 0x86, 0xf7, 0x0d, 0x01, 0x01, 0x01] + [0x05, 0x00])
  {
    hide Tlv;
    ShortTlv(OBJECT_IDENTIFIER, RSA_ENCRYPTION);
    ShortTlv(NULL, []);
    assert [NULL, 0] + [] == [0x05, 0x00];
    ShortTlv(SEQUENCE, [0x06, 0x09] + RSA_ENCRYPTION + [0x05, 0x00]);
  }

  /** The whole key structure. */
  lemma DerWritten()
    ensures Spki([0xc1, 0xc2, 0xc3], Bytes4(0x1_0003))
         == [0x30, 0x1f]
            + ([0x30, 0x0d] + ([0x06, 0x09] + [0x2a, 0x86, 0x48, 0x86, 0xf7, 0x0d, 0x01, 0x01, 0x01] + [0x05, 0x00])
               + ([0x03, 0x0e] + ([0x00] + ([0x30, 0x0b]
                  + [0x02, 0x04, 0x00, 0xc1, 0xc2, 0xc3] + [0x02, 0x03, 0x01, 0x00, 0x03]))))
  {
    hide Tlv, IntegerBody, Bytes4;
    KeyWritten();
    AlgorithmWritten();
    var key := [0x30, 0x0b] + [0x02, 0x04, 0x00, 0xc1, 0xc2, 0xc3] + [0x02, 0x03, 0x01, 0x00, 0x03];
    var algorithm :=
      [0x30, 0x0d] + ([0x06, 0x09] + [0x2a, 0x86, 0x48, 0x86, 0xf7, 0x0d, 0x01, 0x01, 0x01] + [0x05, 0x00]);
    ShortTlv(BIT_STRING, [0] + key);
    ShortTlv(SEQUENCE, algorithm + ([0x03, 0x0e] + ([0] + key)));
  }

  /** A length of two bytes. */
  lemma LongLengthWritten()
    ensures LengthBytes(127) == [0x7f] && LengthBytes(200) == [0x81, 0xc8] && LengthBytes(300) == [0x82, 0x01, 0x2c]
  {
    assert Bytes4(200) == [0x00, 0x00, 0x00, 0xc8] && Bytes4(300) == [0x00, 0x00, 0x01, 0x2c];
    assert [0x00, 0x00, 0x00, 0xc8][1..] == [0x00, 0x00, 0xc8] && [0x00, 0x00, 0xc8][1..] == [0x00, 0xc8];
    assert [0x00, 0xc8][1..] == [0xc8] && [0x00, 0x00, 0x00, 0xc8][3..] == [0xc8];
    assert [0x00, 0x00, 0x01, 0x2c][1..] == [0x00, 0x01, 0x2c] && [0x00, 0x01, 0x2c][1..] == [0x01, 0x2c];
    assert [0x00, 0x00, 0x01, 0x2c][2..] == [0x01, 0x2c];
  }

  /** The examples of section 10 of RFC 4648. */
  lemma TextWritten()
    ensures Base64([]) == "" && Base64([0x66]) == "Zg==" && Base64([0x66, 0x6f]) == "Zm8="
    ensures Base64([0x66, 0x6f, 0x6f]) == "Zm9v" && Base64([0x66, 0x6f, 0x6f, 0x62]) == "Zm9v" + "Yg=="
    ensures Base64([0x66, 0x6f, 0x6f, 0x62, 0x61]) == "Zm9v" + "YmE="
    ensures Base64([0x66, 0x6f, 0x6f, 0x62, 0x61, 0x72]) == "Zm9v" + "YmFy"
  {
    hide Group, Base64;
    var foo: seq<byte> := [0x66, 0x6f, 0x6f];
    GroupsWritten();
    ShortText([]);
    ShortText([0x66]);
    ShortText([0x66, 0x6f]);
    ShortText(foo);
    assert foo + [0x62] == [0x66, 0x6f, 0x6f, 0x62] && foo + [0x62, 0x61] == [0x66, 0x6f, 0x6f, 0x62, 0x61];
    assert foo + [0x62, 0x61, 0x72] == [0x66, 0x6f, 0x6f, 0x62, 0x61, 0x72];
    Extended(foo, [0x62]);
    Extended(foo, [0x62, 0x61]);
    Extended(foo, [0x62, 0x61, 0x72]);
  }

  lemma ShortText(data: seq<byte>)
    requires |data| <= 3
    ensures Base64(data) == if data == [] then "" else Group(data)
  {
  }

  /** The symbols as section 4 of RFC 4648 lists them. */
  lemma SymbolIs(v: nat, c: char)
    requires v < 64 && SymbolValue(c) == Some(v)
    ensures Symbol(v) == c
  {
    SymbolRoundTrip(v);
    hide Symbol;
  }

  lemma SymbolsUsed()
    ensures Symbol(25) == 'Z' && Symbol(32) == 'g' && Symbol(38) == 'm' && Symbol(60) == '8' && Symbol(61) == '9'
    ensures Symbol(47) == 'v' && Symbol(24) == 'Y' && Symbol(4) == 'E' && Symbol(5) == 'F' && Symbol(50) == 'y'
  {
    hide Symbol;
    SymbolIs(25, 'Z');
    SymbolIs(32, 'g');
    SymbolIs(38, 'm');
    SymbolIs(60, '8');
    SymbolIs(61, '9');
    SymbolIs(47, 'v');
    SymbolIs(24, 'Y');
    SymbolIs(4, 'E');
    SymbolIs(5, 'F');
    SymbolIs(50, 'y');
  }

  lemma GroupIs(chunk: seq<byte>, b0: byte, b1: byte, b2: byte, v0: nat, v1: nat, v2: nat, v3: nat)
    requires 1 <= |chunk| <= 3 && b0 == chunk[0] && b1 == (if |chunk| > 1 then chunk[1] else 0)
    requires b2 == (if |chunk| > 2 then chunk[2] else 0)
    requires v0 == b0 / 4 && v1 == b0 % 4 * 16 + b1 / 16 && v2 == b1 % 16 * 4 + b2 / 64 && v3 == b2 % 64
    ensures v0 < 64 && v1 < 64 && v2 < 64 && v3 < 64
    ensures Group(chunk) == [Symbol(v0), Symbol(v1), if |chunk| > 1 then Symbol(v2) else '=',
                             if |chunk| > 2 then Symbol(v3) else '=']
  {
    hide Symbol, Group;
    SixBits(b0, b1, b2);
    GroupOf(chunk, b0, b1, b2, v0, v1, v2, v3);
  }

  lemma GroupsWritten()
    ensures Group([0x66]) == "Zg==" && Group([0x66, 0x6f]) == "Zm8=" && Group([0x66, 0x6f, 0x6f]) == "Zm9v"
    ensures Group([0x62]) == "Yg==" && Group([0x62, 0x61]) == "YmE=" && Group([0x62, 0x61, 0x72]) == "YmFy"
  {
    hide Symbol, Group;
    SymbolsUsed();
    GroupIs([0x66], 0x66, 0, 0, 25, 32, 0, 0);
    GroupIs([0x66, 0x6f], 0x66, 0x6f, 0, 25, 38, 60, 0);
    GroupIs([0x66, 0x6f, 0x6f], 0x66, 0x6f, 0x6f, 25, 38, 61, 47);
    GroupIs([0x62], 0x62, 0, 0, 24, 32, 0, 0);
    GroupIs([0x62, 0x61], 0x62, 0x61, 0, 24, 38, 4, 0);
    GroupIs([0x62, 0x61, 0x72], 0x62, 0x61, 0x72, 24, 38, 5, 50);
  }

  lemma Extended(foo: seq<byte>, more: seq<byte>)
    requires |foo| == 3 && 1 <= |more| <= 3
    ensures Base64(foo + more) == Group(foo) + Group(more)
  {
    assert (foo + more)[..3] == foo && (foo + more)[3..] == more;
  }
}
