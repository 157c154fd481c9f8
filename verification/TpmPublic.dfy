/**
 RSA public areas in trusted_hash_attester's tpm.rs: the parser of a TPM2B_PUBLIC,
 the wire format it accepts, and the PEM text made from it.
 */
module TpmPublic {
  import opened Bits
  import opened Options
  import opened Der
  import opened Pem

  const TPM_ALG_RSA: nat := 0x0001
  const TPM_ALG_AES: nat := 0x0006
  const TPM_ALG_NULL: nat := 0x0010
  const DEFAULT_EXPONENT: nat := 65537

  // ---------------------------------------------------------------------
  // The wire format
  // ---------------------------------------------------------------------

  /** cipher is the key size and mode of AES, scheme the algorithm and hash of a scheme other than NULL. */
  datatype RsaPublic = RsaPublic(nameAlg: nat, attributes: nat, authPolicy: seq<byte>, cipher: Option<(nat, nat)>,
                                 scheme: Option<(nat, nat)>, keyBits: nat, exponentField: nat, modulus: seq<byte>)
  {
    predicate Valid() {
      && nameAlg < 0x1_0000 && attributes < 0x1_0000_0000 && |authPolicy| < 0x1_0000
      && (cipher.Some? ==> cipher.value.0 < 0x1_0000 && cipher.value.1 < 0x1_0000)
      && (scheme.Some? ==> scheme.value.0 < 0x1_0000 && scheme.value.0 != TPM_ALG_NULL && scheme.value.1 < 0x1_0000)
      && keyBits < 0x1_0000 && exponentField < 0x1_0000_0000 && |modulus| < 0x1_0000
    }

    /** A zero in the exponent field stands for the default. */
    function Exponent(): nat {
      if exponentField == 0 then DEFAULT_EXPONENT else exponentField
    }
  }

  function Put16(v: nat): (b: seq<byte>)
    requires v < 0x1_0000
    ensures |b| == 2
  {
    [v / 0x100, v % 0x100]
  }

  function Put32(v: nat): (b: seq<byte>)
    requires v < 0x1_0000_0000
    ensures |b| == 4
  {
    Put16(v / 0x1_0000) + Put16(v % 0x1_0000)
  }

  function PutSized(b: seq<byte>): seq<byte>
    requires |b| < 0x1_0000
  {
    Put16(|b|) + b
  }

  function PutCipher(c: Option<(nat, nat)>): seq<byte>
    requires c.Some? ==> c.value.0 < 0x1_0000 && c.value.1 < 0x1_0000
  {
    if c.None? then Put16(TPM_ALG_NULL) else Put16(TPM_ALG_AES) + Put16(c.value.0) + Put16(c.value.1)
  }

  function PutScheme(s: Option<(nat, nat)>): seq<byte>
    requires s.Some? ==> s.value.0 < 0x1_0000 && s.value.1 < 0x1_0000
  {
    if s.None? then Put16(TPM_ALG_NULL) else Put16(s.value.0) + Put16(s.value.1)
  }

  /** The second half of the area: what follows the authorisation policy. */
  function PutDetails(p: RsaPublic): seq<byte>
    requires p.Valid()
  {
    PutCipher(p.cipher) + (PutScheme(p.scheme) + (Put16(p.keyBits) + (Put32(p.exponentField) + PutSized(p.modulus))))
  }

  function PutArea(p: RsaPublic): seq<byte>
    requires p.Valid()
  {
    Put16(TPM_ALG_RSA) + (Put16(p.nameAlg) + (Put32(p.attributes) + (PutSized(p.authPolicy) + PutDetails(p))))
  }

  /** public is the encoding of p: the size of the area, then the area. */
  ghost predicate Encodes(public: seq<byte>, p: RsaPublic) {
    p.Valid() && |PutArea(p)| < 0x1_0000 && public == PutSized(PutArea(p))
  }

  // ---------------------------------------------------------------------
  // Reading it
  // ---------------------------------------------------------------------

  function Take(data: seq<byte>, n: nat): Option<(seq<byte>, seq<byte>)> {
    if n > |data| then None else Some((data[..n], data[n..]))
  }

  function Take16(data: seq<byte>): (r: Option<(nat, seq<byte>)>)
    ensures r.Some? ==> r.value.0 < 0x1_0000
  {
    if |data| < 2 then None else Some((data[0] as int * 0x100 + data[1] as int, data[2..]))
  }

  function Take32(data: seq<byte>): (r: Option<(nat, seq<byte>)>)
    ensures r.Some? ==> r.value.0 < 0x1_0000_0000
  {
    if |data| < 4 then None
    else
      Some(((data[0] as int * 0x100 + data[1] as int) * 0x1_0000 + (data[2] as int * 0x100 + data[3] as int),
            data[4..]))
  }

  function TakeSized(data: seq<byte>): (r: Option<(seq<byte>, seq<byte>)>)
    ensures r.Some? ==> |r.value.0| < 0x1_0000
  {
    var size :- Take16(data);
    Take(size.1, size.0)
  }

  function TakeCipher(data: seq<byte>): Option<(Option<(nat, nat)>, seq<byte>)> {
    var alg :- Take16(data);
    if alg.0 == TPM_ALG_AES then
      var bits :- Take16(alg.1);
      var mode :- Take16(bits.1);
      Some((Some((bits.0, mode.0)), mode.1))
    else if alg.0 == TPM_ALG_NULL then Some((None, alg.1))
    else None
  }

  function TakeScheme(data: seq<byte>): Option<(Option<(nat, nat)>, seq<byte>)> {
    var alg :- Take16(data);
    if alg.0 == TPM_ALG_NULL then Some((None, alg.1))
    else
      var hash :- Take16(alg.1);
      Some((Some((alg.0, hash.0)), hash.1))
  }

  /** Key size, exponent field and modulus, with nothing after them. */
  function TakeKey(data: seq<byte>): Option<(nat, nat, seq<byte>)> {
    var keyBits :- Take16(data);
    var exponent :- Take32(keyBits.1);
    var modulus :- TakeSized(exponent.1);
    if modulus.1 != [] then None else Some((keyBits.0, exponent.0, modulus.0))
  }

  function Parsed(public: seq<byte>): Option<RsaPublic> {
    var size :- Take16(public);
    if size.0 != |size.1| then None
    else
      var kind :- Take16(size.1);
      if kind.0 != TPM_ALG_RSA then None
      else
        var nameAlg :- Take16(kind.1);
        var attributes :- Take32(nameAlg.1);
        var policy :- TakeSized(attributes.1);
        var cipher :- TakeCipher(policy.1);
        var scheme :- TakeScheme(cipher.1);
        var key :- TakeKey(scheme.1);
        Some(RsaPublic(nameAlg.0, attributes.0, policy.0, cipher.0, scheme.0, key.0, key.1, key.2))
  }

  // ---------------------------------------------------------------------
  // Exactly the encodings are accepted
  // ---------------------------------------------------------------------

  lemma Take16Exact(data: seq<byte>, v: nat, rest: seq<byte>)
    requires v < 0x1_0000
    ensures Take16(data) == Some((v, rest)) <==> data == Put16(v) + rest
  {
    if Take16(data) == Some((v, rest)) {
      assert data == [data[0], data[1]] + data[2..];
    }
    if data == Put16(v) + rest {
      assert data[2..] == rest;
    }
  }

  lemma Take32Exact(data: seq<byte>, v: nat, rest: seq<byte>)
    requires v < 0x1_0000_0000
    ensures Take32(data) == Some((v, rest)) <==> data == Put32(v) + rest
  {
    if Take32(data) == Some((v, rest)) {
      TakenPut32(data);
    }
    if data == Put32(v) + rest {
      PutTaken32(v, rest);
    }
  }

  lemma TakenPut32(data: seq<byte>)
    requires Take32(data).Some?
    ensures data == Put32(Take32(data).value.0) + Take32(data).value.1
  {
    var high, low := data[0] as int * 0x100 + data[1] as int, data[2] as int * 0x100 + data[3] as int;
    assert (high * 0x1_0000 + low) / 0x1_0000 == high && (high * 0x1_0000 + low) % 0x1_0000 == low;
    PairPut16(data[0], data[1]);
    PairPut16(data[2], data[3]);
    hide Put16;
    assert data == [data[0], data[1], data[2], data[3]] + data[4..];
  }

  lemma PairPut16(b0: byte, b1: byte)
    ensures Put16(b0 as int * 0x100 + b1 as int) == [b0, b1]
  {
  }

  lemma PutTaken32(v: nat, rest: seq<byte>)
    requires v < 0x1_0000_0000
    ensures Take32(Put32(v) + rest) == Some((v, rest))
  {
    assert (Put32(v) + rest)[4..] == rest;
  }

  lemma TakeSizedExact(data: seq<byte>, b: seq<byte>, rest: seq<byte>)
    requires |b| < 0x1_0000
    ensures TakeSized(data) == Some((b, rest)) <==> data == PutSized(b) + rest
  {
    Take16Exact(data, |b|, b + rest);
    assert PutSized(b) + rest == Put16(|b|) + (b + rest);
    if TakeSized(data) == Some((b, rest)) {
      var size := Take16(data).value;
      assert size.1 == size.1[..size.0] + size.1[size.0..];
    }
    if data == PutSized(b) + rest {
      assert (b + rest)[..|b|] == b && (b + rest)[|b|..] == rest;
    }
  }

  lemma TakeCipherExact(data: seq<byte>, c: Option<(nat, nat)>, rest: seq<byte>)
    requires c.Some? ==> c.value.0 < 0x1_0000 && c.value.1 < 0x1_0000
    ensures TakeCipher(data) == Some((c, rest)) <==> data == PutCipher(c) + rest
  {
    if c.None? {
      Take16Exact(data, TPM_ALG_NULL, rest);
    } else {
      var mode := Put16(c.value.1) + rest;
      var bits := Put16(c.value.0) + mode;
      Take16Exact(data, TPM_ALG_AES, bits);
      Take16Exact(bits, c.value.0, mode);
      Take16Exact(mode, c.value.1, rest);
      assert PutCipher(c) + rest == Put16(TPM_ALG_AES) + bits;
      if TakeCipher(data) == Some((c, rest)) {
        var d := Take16(data).value.1;
        var e := Take16(d).value.1;
        Take16Exact(d, c.value.0, e);
        Take16Exact(e, c.value.1, rest);
        assert e == mode && d == bits;
      }
    }
  }

  lemma TakeSchemeExact(data: seq<byte>, s: Option<(nat, nat)>, rest: seq<byte>)
    requires s.Some? ==> s.value.0 < 0x1_0000 && s.value.0 != TPM_ALG_NULL && s.value.1 < 0x1_0000
    ensures TakeScheme(data) == Some((s, rest)) <==> data == PutScheme(s) + rest
  {
    if s.None? {
      Take16Exact(data, TPM_ALG_NULL, rest);
    } else {
      var hash := Put16(s.value.1) + rest;
      Take16Exact(data, s.value.0, hash);
      Take16Exact(hash, s.value.1, rest);
      assert PutScheme(s) + rest == Put16(s.value.0) + hash;
      if TakeScheme(data) == Some((s, rest)) {
        var d := Take16(data).value.1;
        Take16Exact(d, s.value.1, rest);
        assert d == hash;
      }
    }
  }

  lemma TakeKeyExact(data: seq<byte>, keyBits: nat, exponent: nat, modulus: seq<byte>)
    requires keyBits < 0x1_0000 && exponent < 0x1_0000_0000 && |modulus| < 0x1_0000
    ensures TakeKey(data) == Some((keyBits, exponent, modulus)) <==>
            data == Put16(keyBits) + (Put32(exponent) + PutSized(modulus))
  {
    hide Put16, Put32, PutSized, Take16, Take32, TakeSized;
    var third := PutSized(modulus);
    var second := Put32(exponent) + third;
    Take16Exact(data, keyBits, second);
    Take32Exact(second, exponent, third);
    TakeSizedExact(third, modulus, []);
    assert third + [] == third;
    if TakeKey(data) == Some((keyBits, exponent, modulus)) {
      var d := Take16(data).value.1;
      var e := Take32(d).value.1;
      Take16Exact(data, keyBits, d);
      Take32Exact(d, exponent, e);
      TakeSizedExact(e, modulus, []);
      assert PutSized(modulus) + [] == PutSized(modulus);
    }
  }

  /** The pieces of a public area, in the order they are taken. */
  lemma ParsedEncoding(public: seq<byte>, p: RsaPublic)
    requires Encodes(public, p)
    ensures Parsed(public) == Some(p)
  {
    hide Put16, Put32, PutSized, PutCipher, PutScheme, Take16, Take32, TakeSized, TakeCipher, TakeScheme, TakeKey;
    var key := Put16(p.keyBits) + (Put32(p.exponentField) + PutSized(p.modulus));
    var scheme := PutScheme(p.scheme) + key;
    var cipher := PutCipher(p.cipher) + scheme;
    var policy := PutSized(p.authPolicy) + cipher;
    var attributes := Put32(p.attributes) + policy;
    var nameAlg := Put16(p.nameAlg) + attributes;
    var area := Put16(TPM_ALG_RSA) + nameAlg;
    SizedOf(area);
    Take16Exact(public, |area|, area);
    Take16Exact(area, TPM_ALG_RSA, nameAlg);
    Take16Exact(nameAlg, p.nameAlg, attributes);
    Take32Exact(attributes, p.attributes, policy);
    TakeSizedExact(policy, p.authPolicy, cipher);
    TakeCipherExact(cipher, p.cipher, scheme);
    TakeSchemeExact(scheme, p.scheme, key);
    TakeKeyExact(key, p.keyBits, p.exponentField, p.modulus);
  }

  lemma SizedOf(area: seq<byte>)
    requires |area| < 0x1_0000
    ensures PutSized(area) == Put16(|area|) + area
  {
  }

  lemma TakenValid(data: seq<byte>)
    ensures TakeCipher(data).Some? && TakeCipher(data).value.0.Some? ==>
              TakeCipher(data).value.0.value.0 < 0x1_0000 && TakeCipher(data).value.0.value.1 < 0x1_0000
    ensures TakeScheme(data).Some? && TakeScheme(data).value.0.Some? ==>
              && TakeScheme(data).value.0.value.0 < 0x1_0000 && TakeScheme(data).value.0.value.1 < 0x1_0000
              && TakeScheme(data).value.0.value.0 != TPM_ALG_NULL
    ensures TakeKey(data).Some? ==>
              && TakeKey(data).value.0 < 0x1_0000 && TakeKey(data).value.1 < 0x1_0000_0000
              && |TakeKey(data).value.2| < 0x1_0000
  {
  }

  lemma AcceptedEncoding(public: seq<byte>)
    requires Parsed(public).Some?
    ensures Encodes(public, Parsed(public).value)
  {
    hide Put16, Put32, PutSized, PutCipher, PutScheme, Take16, Take32, TakeSized, TakeCipher, TakeScheme, TakeKey;
    var p := Parsed(public).value;
    var area := Take16(public).value.1;
    var nameAlg := Take16(area).value.1;
    var attributes := Take16(nameAlg).value.1;
    var policy := Take32(attributes).value.1;
    var cipher := TakeSized(policy).value.1;
    var scheme := TakeCipher(cipher).value.1;
    var key := TakeScheme(scheme).value.1;
    TakenValid(cipher);
    TakenValid(scheme);
    TakenValid(key);
    Take16Exact(public, |area|, area);
    Take16Exact(area, TPM_ALG_RSA, nameAlg);
    Take16Exact(nameAlg, p.nameAlg, attributes);
    Take32Exact(attributes, p.attributes, policy);
    TakeSizedExact(policy, p.authPolicy, cipher);
    TakeCipherExact(cipher, p.cipher, scheme);
    TakeSchemeExact(scheme, p.scheme, key);
    TakeKeyExact(key, p.keyBits, p.exponentField, p.modulus);
    SizedOf(area);
  }

  /** A byte string is accepted as p exactly when it is the encoding of p. */
  lemma ParsedExact(public: seq<byte>, p: RsaPublic)
    ensures Parsed(public) == Some(p) <==> Encodes(public, p)
  {
    hide Parsed, Encodes;
    if Encodes(public, p) {
      ParsedEncoding(public, p);
    }
    if Parsed(public) == Some(p) {
      AcceptedEncoding(public);
    }
  }

  // ---------------------------------------------------------------------
  // The cursor and the parser
  // ---------------------------------------------------------------------

  class BytesCursor {
    const bytes: seq<byte>
    var offset: nat

    /** What is still to be read. */
    ghost function Rest(): seq<byte>
      reads this
      requires offset <= |bytes|
    {
      bytes[offset..]
    }

    constructor (bytes: seq<byte>)
      ensures this.bytes == bytes && offset == 0 && Rest() == bytes
    {
      this.bytes := bytes;
      offset := 0;
    }

    method TakeBytes(len: nat) returns (r: Option<seq<byte>>)
      requires offset <= |bytes|
      modifies this
      ensures offset <= |bytes|
      ensures match Take(old(Rest()), len)
              case None => r == None && offset == old(offset)
              case Some(t) => r == Some(t.0) && Rest() == t.1
    {
      if offset + len > |bytes| {
        return None;
      }
      var out := bytes[offset..offset + len];
      assert bytes[offset..][..len] == out && bytes[offset..][len..] == bytes[offset + len..];
      offset := offset + len;
      return Some(out);
    }

    method TakeU16() returns (r: Option<nat>)
      requires offset <= |bytes|
      modifies this
      ensures offset <= |bytes|
      ensures match Take16(old(Rest()))
              case None => r == None
              case Some(t) => r == Some(t.0) && Rest() == t.1
    {
      var b :- TakeBytes(2);
      return Some(b[0] as int * 0x100 + b[1] as int);
    }

    method TakeU32() returns (r: Option<nat>)
      requires offset <= |bytes|
      modifies this
      ensures offset <= |bytes|
      ensures match Take32(old(Rest()))
              case None => r == None
              case Some(t) => r == Some(t.0) && Rest() == t.1
    {
      var b :- TakeBytes(4);
      return Some(((b[0] as int * 0x100 + b[1] as int) * 0x100 + b[2] as int) * 0x100 + b[3] as int);
    }

    method TakeTpm2b() returns (r: Option<seq<byte>>)
      requires offset <= |bytes|
      modifies this
      ensures offset <= |bytes|
      ensures match TakeSized(old(Rest()))
              case None => r == None
              case Some(t) => r == Some(t.0) && Rest() == t.1
    {
      var size :- TakeU16();
      r := TakeBytes(size);
    }
  }

  /** The parser. info is None when the bytes are rejected. */
  method ParseRsaTpm2bPublic(public: seq<byte>) returns (info: Option<RsaPublic>)
    ensures info == Parsed(public)
    ensures forall p :: info == Some(p) <==> Encodes(public, p)
  {
    forall p
      ensures Parsed(public) == Some(p) <==> Encodes(public, p)
    {
      ParsedExact(public, p);
    }
    hide Take16, Take32, TakeSized, Encodes;
    var cursor := new BytesCursor(public);
    var publicSize := cursor.TakeU16();
    if publicSize.None? {
      return None;
    }
    var publicEnd := cursor.offset + publicSize.value;
    if publicEnd != |public| {
      return None;
    }
    var publicType := cursor.TakeU16();
    if publicType.None? || publicType.value != TPM_ALG_RSA {
      return None;
    }
    var nameAlg :- cursor.TakeU16();
    var attributes :- cursor.TakeU32();
    var authPolicy :- cursor.TakeTpm2b();
    var cipher :- ParseCipher(cursor);
    var scheme :- ParseScheme(cursor);
    var key :- ParseKey(cursor);
    return Some(RsaPublic(nameAlg, attributes, authPolicy, cipher, scheme, key.0, key.1, key.2));
  }

  method ParseCipher(cursor: BytesCursor) returns (r: Option<Option<(nat, nat)>>)
    requires cursor.offset <= |cursor.bytes|
    modifies cursor
    ensures cursor.offset <= |cursor.bytes|
    ensures match TakeCipher(old(cursor.Rest()))
            case None => r == None
            case Some(t) => r == Some(t.0) && cursor.Rest() == t.1
  {
    hide Take16;
    var alg :- cursor.TakeU16();
    if alg == TPM_ALG_AES {
      var bits :- cursor.TakeU16();
      var mode :- cursor.TakeU16();
      return Some(Some((bits, mode)));
    } else if alg == TPM_ALG_NULL {
      return Some(None);
    }
    return None;
  }

  method ParseScheme(cursor: BytesCursor) returns (r: Option<Option<(nat, nat)>>)
    requires cursor.offset <= |cursor.bytes|
    modifies cursor
    ensures cursor.offset <= |cursor.bytes|
    ensures match TakeScheme(old(cursor.Rest()))
            case None => r == None
            case Some(t) => r == Some(t.0) && cursor.Rest() == t.1
  {
    hide Take16;
    var alg :- cursor.TakeU16();
    if alg == TPM_ALG_NULL {
      return Some(None);
    }
    var hash :- cursor.TakeU16();
    return Some(Some((alg, hash)));
  }

  method ParseKey(cursor: BytesCursor) returns (r: Option<(nat, nat, seq<byte>)>)
    requires cursor.offset <= |cursor.bytes|
    modifies cursor
    ensures r == TakeKey(old(cursor.Rest()))
  {
    hide Take16, Take32, TakeSized;
    var keyBits :- cursor.TakeU16();
    var exponent :- cursor.TakeU32();
    var modulus :- cursor.TakeTpm2b();
    if cursor.offset != |cursor.bytes| {
      return None;
    }
    return Some((keyBits, exponent, modulus));
  }

  // ---------------------------------------------------------------------
  // The PEM text
  // ---------------------------------------------------------------------

  const HEADER: string := "-----BEGIN PUBLIC KEY-----\n"
  const FOOTER: string := "-----END PUBLIC KEY-----\n"

  /** Reads a PEM public key: header, base64 lines, footer; then the DER inside. */
  function ReadPem(text: string): Option<(nat, nat)> {
    if |text| < |HEADER| + |FOOTER| || !(HEADER <= text) || text[|text| - |FOOTER|..] != FOOTER then None
    else
      var der :- ReadBase64(WithoutNewlines(text[|HEADER|..|text| - |FOOTER|]));
      ReadSpki(der)
  }

  lemma ExponentBytes(e: nat)
    requires e < 0x1_0000_0000
    ensures Value(Bytes4(e)) == e
  {
    Bytes4Value(e);
  }

  lemma PemReads(body: string, der: seq<byte>)
    requires ReadBase64(WithoutNewlines(body)) == Some(der)
    ensures ReadPem(HEADER + body + FOOTER) == ReadSpki(der)
  {
    hide ReadBase64, WithoutNewlines, ReadSpki;
    var text := HEADER + body + FOOTER;
    assert text[|HEADER|..|text| - |FOOTER|] == body;
    assert text[|text| - |FOOTER|..] == FOOTER;
  }

  /** Reading the printed key back gives the modulus and the exponent of the public area; the text is unreadable
      exactly when the modulus is empty. */
  method RsaPublicPem(public: seq<byte>) returns (pem: Option<string>)
    ensures pem.Some? <==> Parsed(public).Some?
    ensures pem.Some? ==>
              var p := Parsed(public).value;
              ReadPem(pem.value) == if p.modulus == [] then None else Some((Value(p.modulus), p.Exponent()))
    ensures pem.Some? ==>
              var p := Parsed(public).value;
              pem.value == HEADER + Wrapped(Base64(Spki(p.modulus, Bytes4(p.Exponent())))) + FOOTER
  {
    var parsed := ParseRsaTpm2bPublic(public);
    AcceptedWhenSome(public);
    hide Parsed, Encodes, ReadPem, ReadSpki, Spki, Value, Bytes4, ReadBase64, WithoutNewlines, Wrapped, Base64;
    if parsed.None? {
      return None;
    }
    var p := parsed.value;
    var exponent := Bytes4(p.Exponent());
    var spki := DerSpki(p.modulus, exponent);
    var body := PemBase64(spki);
    ExponentBytes(p.Exponent());
    SpkiRoundTrip(p.modulus, exponent);
    PemReads(body, spki);
    return Some(HEADER + body + FOOTER);
  }

  /** An area without algorithms, policy and modulus. */
  const EMPTY_KEY: RsaPublic := RsaPublic(0, 0, [], None, None, 0, 0, [])

  /** It is accepted, and the PEM printed for it has no readable key. */
  lemma EmptyModulusAccepted()
    ensures EMPTY_KEY.Valid() && |PutArea(EMPTY_KEY)| < 0x1_0000
    ensures Parsed(PutSized(PutArea(EMPTY_KEY))) == Some(EMPTY_KEY)
    ensures forall exponent :: 0 < |exponent| < 0x1_0000 ==> ReadSpki(Spki(EMPTY_KEY.modulus, exponent)) == None
  {
    hide Parsed, Spki, ReadSpki;
    var area := PutArea(EMPTY_KEY);
    assert |area| == 22;
    ParsedEncoding(PutSized(area), EMPTY_KEY);
    forall exponent | 0 < |exponent| < 0x1_0000
      ensures ReadSpki(Spki(EMPTY_KEY.modulus, exponent)) == None
    {
      SpkiRoundTrip(EMPTY_KEY.modulus, exponent);
    }
  }

  lemma AcceptedWhenSome(public: seq<byte>)
    ensures Parsed(public).Some? ==> Parsed(public).value.Valid()
  {
    hide Parsed;
    if Parsed(public).Some? {
      AcceptedEncoding(public);
    }
  }
}
