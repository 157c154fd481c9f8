/**
 Replies of the TPM written out field by field, as Part 3 of the TPM 2.0 library
 specification lays them out, and when the parsers of TpmResponses take them.
 */
module ResponseLayouts {
  import opened Bits
  import opened Machine
  import opened TpmResponses

  function Wire16(v: nat): (b: seq<byte>)
    requires v < 0x1_0000
    ensures |b| == 2
  {
    [v / 0x100, v % 0x100]
  }

  function Wire32(v: nat): (b: seq<byte>)
    requires v < 0x1_0000_0000
    ensures |b| == 4
  {
    [v / 0x100_0000, v / 0x1_0000 % 0x100, v / 0x100 % 0x100, v % 0x100]
  }

  /** TPM2B: a size and that many bytes. */
  function SizedField(body: seq<byte>): seq<byte>
    requires |body| < 0x1_0000
  {
    Wire16(|body|) + body
  }

  /** TPMT_TK_CREATION: a tag, a hierarchy and a sized digest. */
  function TicketField(tag: nat, hierarchy: nat, digest: seq<byte>): seq<byte>
    requires tag < 0x1_0000 && hierarchy < 0x1_0000_0000 && |digest| < 0x1_0000
  {
    Wire16(tag) + Wire32(hierarchy) + SizedField(digest)
  }

  /** TPMT_SIGNATURE with RSASSA: the algorithm, a hash algorithm and the sized signature. */
  function SignatureField(hash: nat, signature: seq<byte>): seq<byte>
    requires hash < 0x1_0000 && |signature| < 0x1_0000
  {
    [0x00, 0x14] + Wire16(hash) + SizedField(signature)
  }

  lemma Wire16Read(v: nat, rest: seq<byte>)
    requires v < 0x1_0000
    ensures Be16(Wire16(v) + rest, 0) == v
  {
  }

  lemma FourDigits(v: nat)
    ensures v == (v / 0x100_0000 * 0x100 + v / 0x1_0000 % 0x100) * 0x1_0000 + (v / 0x100 % 0x100 * 0x100 + v % 0x100)
  {
    var v1 := v / 0x100;
    var v2 := v1 / 0x100;
    assert v2 == v / 0x1_0000 && v2 / 0x100 == v / 0x100_0000;
  }

  lemma Wire32Read(v: nat, rest: seq<byte>)
    requires v < 0x1_0000_0000
    ensures Be32(Wire32(v) + rest, 0) == v
  {
    var a, b, c, d := v / 0x100_0000, v / 0x1_0000 % 0x100, v / 0x100 % 0x100, v % 0x100;
    FourDigits(v);
    assert (Wire32(v) + rest)[0] == a && (Wire32(v) + rest)[1] == b;
    assert (Wire32(v) + rest)[2] == c && (Wire32(v) + rest)[3] == d;
  }

  lemma SizedFieldRead(body: seq<byte>)
    requires |body| < 0x1_0000
    ensures Field(Sized, SizedField(body), 0, |body| + 2) && |SizedField(body)| == |body| + 2
  {
    Wire16Read(|body|, body);
  }

  lemma TicketFieldRead(tag: nat, hierarchy: nat, digest: seq<byte>)
    requires tag < 0x1_0000 && hierarchy < 0x1_0000_0000 && |digest| < 0x1_0000
    ensures |TicketField(tag, hierarchy, digest)| == |digest| + 8
    ensures Field(Ticket, TicketField(tag, hierarchy, digest), 0, |digest| + 8)
  {
    hide Wire16, Wire32;
    Wire16Read(|digest|, digest);
    var part := TicketField(tag, hierarchy, digest);
    assert part[6] == Wire16(|digest|)[0] && part[7] == Wire16(|digest|)[1];
  }

  lemma SignatureFieldRead(hash: nat, signature: seq<byte>)
    requires hash < 0x1_0000 && |signature| < 0x1_0000
    ensures |SignatureField(hash, signature)| == |signature| + 6
    ensures Field(Signature, SignatureField(hash, signature), 0, |signature| + 6)
  {
    hide Wire16;
    Wire16Read(|signature|, signature);
    var part := SignatureField(hash, signature);
    assert part[4] == Wire16(|signature|)[0] && part[5] == Wire16(|signature|)[1];
  }

  /** A whole reply: tag, length, return code, handles, the size of the parameter area, the area, and what follows. */
  function Reply(tag: nat, code: nat, handles: seq<byte>, area: seq<byte>, rest: seq<byte>): seq<byte>
    requires tag < 0x1_0000 && code < 0x1_0000_0000 && 14 + |handles| + |area| + |rest| < 0x1_0000_0000
  {
    Wire16(tag) + Wire32(14 + |handles| + |area| + |rest|) + Wire32(code) + handles + Wire32(|area|) + area + rest
  }

  lemma ReplyRead(tag: nat, code: nat, handles: seq<byte>, area: seq<byte>, rest: seq<byte>)
    requires tag < 0x1_0000 && code < 0x1_0000_0000 && 14 + |handles| + |area| + |rest| < 0x1_0000_0000
    ensures var data, at := Reply(tag, code, handles, area, rest), 10 + |handles|;
            && |data| == 14 + |handles| + |area| + |rest| && Be16(data, 0) == tag && Be32(data, 2) == |data|
            && Be32(data, at) == |area| && data[at + 4..at + 4 + |area|] == area
            && Received(data) && Length(data) == |data|
  {
    hide Wire16, Wire32;
    var data, at := Reply(tag, code, handles, area, rest), 10 + |handles|;
    Wire16Read(tag, []);
    Wire32Read(14 + |handles| + |area| + |rest|, []);
    Wire32Read(|area|, []);
    assert data[0..2] == Wire16(tag);
    assert data[2..6] == Wire32(|data|);
    assert data[at..at + 4] == Wire32(|area|);
    Moved16(data, 0);
    Moved32(data, 2);
    Moved32(data, at);
  }

  lemma Moved16(data: seq<byte>, at: nat)
    requires at + 2 <= |data|
    ensures Be16(data, at) == Be16(data[at..at + 2] + [], 0)
  {
  }

  lemma Moved32(data: seq<byte>, at: nat)
    requires at + 4 <= |data|
    ensures Be32(data, at) == Be32(data[at..at + 4] + [], 0)
  {
  }

  // ---------------------------------------------------------------------
  // Areas made of fields of the right kinds
  // ---------------------------------------------------------------------

  function KindOf(item: Item): Kind {
    match item
    case Skip(kind) => kind
    case CopyWhole(kind, _) => kind
    case CopyBody(_) => Sized
  }

  /** One field for each item, of its kind. */
  ghost predicate Matching(items: seq<Item>, parts: seq<seq<byte>>) {
    |parts| == |items| && forall i :: 0 <= i < |items| ==> Field(KindOf(items[i]), parts[i], 0, |parts[i]|)
  }

  /** Such an area has the layout exactly when every copy fits. */
  lemma {:induction false} LayoutIff(items: seq<Item>, parts: seq<seq<byte>>, data: seq<byte>, off: nat)
    requires Matching(items, parts) && off + |Joined(parts)| <= |data|
    requires data[off..off + |Joined(parts)|] == Joined(parts)
    ensures Tiles(items, data, off, off + |Joined(parts)|) <==> Parts(items, parts)
    decreases |items|
  {
    hide Fits, Field;
    if Parts(items, parts) {
      PartsTile(items, parts, data, off);
    } else {
      var mid := off + |parts[0]|;
      var rest := Joined(parts[1..]);
      var whole := data[off..off + |Joined(parts)|];
      assert whole == parts[0] + rest;
      assert data[off..mid] == whole[..|parts[0]|] && data[mid..mid + |rest|] == whole[|parts[0]|..];
      FieldMoves(items[0], parts[0], data, off);
      KindMoves(KindOf(items[0]), parts[0], data, off);
      LayoutIff(items[1..], parts[1..], data, mid);
      PartsSplit(items, parts);
      OneEnd(items[0], data, off, mid);
      if Fits(items[0], data, off, mid) {
        TakeField(items, data, off, mid, mid + |rest|);
      }
    }
  }

  lemma PartsSplit(items: seq<Item>, parts: seq<seq<byte>>)
    requires |parts| == |items| && items != []
    ensures Parts(items, parts) <==> Fits(items[0], parts[0], 0, |parts[0]|) && Parts(items[1..], parts[1..])
  {
    hide Fits;
    if Fits(items[0], parts[0], 0, |parts[0]|) && Parts(items[1..], parts[1..]) {
      forall i | 0 <= i < |items| ensures Fits(items[i], parts[i], 0, |parts[i]|) {
        if i > 0 {
          assert items[i] == items[1..][i - 1] && parts[i] == parts[1..][i - 1];
        }
      }
    }
    if Parts(items, parts) {
      forall i | 0 <= i < |items[1..]| ensures Fits(items[1..][i], parts[1..][i], 0, |parts[1..][i]|) {
        assert items[1..][i] == items[i + 1] && parts[1..][i] == parts[i + 1];
      }
    }
  }

  lemma KindMoves(kind: Kind, part: seq<byte>, data: seq<byte>, off: nat)
    requires off + |part| <= |data| && data[off..off + |part|] == part && Field(kind, part, 0, |part|)
    ensures Field(kind, data, off, off + |part|)
  {
    FieldMoves(Skip(kind), part, data, off);
  }

  lemma OneEnd(item: Item, data: seq<byte>, off: nat, mid: nat)
    requires Field(KindOf(item), data, off, mid)
    ensures forall end: nat :: Fits(item, data, off, end) ==> end == mid
  {
  }

  lemma JoinedFive(a: seq<byte>, b: seq<byte>, c: seq<byte>, d: seq<byte>, e: seq<byte>)
    ensures Joined([a, b, c, d, e]) == a + b + c + d + e
  {
    assert [a, b, c, d, e][1..] == [b, c, d, e] && [b, c, d, e][1..] == [c, d, e] && [c, d, e][1..] == [d, e];
    JoinedTwo(d, e);
    assert Joined([c, d, e]) == c + (d + e);
    assert Joined([b, c, d, e]) == b + (c + (d + e));
    assert Joined([a, b, c, d, e]) == a + (b + (c + (d + e)));
  }

  lemma JoinedTwo(a: seq<byte>, b: seq<byte>)
    ensures Joined([a, b]) == a + b
  {
    assert [a, b][1..] == [b] && [b][1..] == [];
    assert Joined([b]) == b;
  }

  lemma JoinedOne(a: seq<byte>)
    ensures Joined([a]) == a
  {
  }

  /** An area of matching fields behind the handles of a reply. */
  lemma ReplyIff(items: seq<Item>, parts: seq<seq<byte>>, code: nat, handles: seq<byte>, rest: seq<byte>)
    requires Matching(items, parts) && code < 0x1_0000_0000
    requires 14 + |handles| + |Joined(parts)| + |rest| < 0x1_0000_0000
    ensures var data := Reply(0x8002, code, handles, Joined(parts), rest);
            && Received(data) && Length(data) == |data| && Tagged(data, TPM2_ST_SESSIONS)
            && (Parameters(items, data, 10 + |handles|, |data|) <==> Parts(items, parts))
  {
    hide Reply, Tiles, Parts, Matching, Joined;
    ReplyRead(0x8002, code, handles, Joined(parts), rest);
    LayoutIff(items, parts, Reply(0x8002, code, handles, Joined(parts), rest), 14 + |handles|);
  }

  // ---------------------------------------------------------------------
  // The replies of the commands
  // ---------------------------------------------------------------------

  /** TPM2_CreatePrimary: public area, creation data, creation hash, ticket, name. Only the public area and the name
      are copied, the former with its size. */
  lemma PrimaryReplyIff(public: seq<byte>, creation: seq<byte>, hash: seq<byte>, ticket: nat, hierarchy: nat,
                        digest: seq<byte>, name: seq<byte>, code: nat, handle: nat, rest: seq<byte>,
                        publicMax: uint16, nameMax: uint16)
    requires |public| < 0x1_0000 && |creation| < 0x1_0000 && |hash| < 0x1_0000 && |digest| < 0x1_0000
    requires |name| < 0x1_0000 && ticket < 0x1_0000 && hierarchy < 0x1_0000_0000
    requires code < 0x1_0000_0000 && handle < 0x1_0000_0000 && |rest| < 0x1_0000
    ensures var data := Reply(0x8002, code, Wire32(handle),
                              SizedField(public) + SizedField(creation) + SizedField(hash)
                              + TicketField(ticket, hierarchy, digest) + SizedField(name), rest);
            && Received(data) && Length(data) == |data| && Tagged(data, TPM2_ST_SESSIONS)
            && (Parameters(PrimaryLayout(publicMax, nameMax), data, 14, Length(data))
                <==> |public| + 2 <= publicMax as int && |name| <= nameMax as int)
  {
    var items := PrimaryLayout(publicMax, nameMax);
    var parts := [SizedField(public), SizedField(creation), SizedField(hash), TicketField(ticket, hierarchy, digest),
                  SizedField(name)];
    SizedFieldRead(public);
    SizedFieldRead(creation);
    SizedFieldRead(hash);
    TicketFieldRead(ticket, hierarchy, digest);
    SizedFieldRead(name);
    hide SizedField, TicketField, Field;
    JoinedFive(parts[0], parts[1], parts[2], parts[3], parts[4]);
    assert Matching(items, parts);
    assert Parts(items, parts) <==> |public| + 2 <= publicMax as int && |name| <= nameMax as int;
    ReplyIff(items, parts, code, Wire32(handle), rest);
  }

  /** TPM2_Create: private area, public area, creation data, creation hash, ticket; the last two only for callers
      that want them. */
  lemma CreateReplyIff(private: seq<byte>, public: seq<byte>, creation: seq<byte>, hash: seq<byte>, ticket: nat,
                       hierarchy: nat, digest: seq<byte>, code: nat, rest: seq<byte>, privateMax: uint16,
                       publicMax: uint16, hashOut: array?<byte>, hashMax: uint16, ticketOut: array?<byte>,
                       ticketMax: uint16)
    requires |private| < 0x1_0000 && |public| < 0x1_0000 && |creation| < 0x1_0000 && |hash| < 0x1_0000
    requires |digest| < 0x1_0000 && ticket < 0x1_0000 && hierarchy < 0x1_0000_0000
    requires code < 0x1_0000_0000 && |rest| < 0x1_0000
    ensures var data := Reply(0x8002, code, [],
                              SizedField(private) + SizedField(public) + SizedField(creation) + SizedField(hash)
                              + TicketField(ticket, hierarchy, digest), rest);
            && Received(data) && Length(data) == |data| && Tagged(data, TPM2_ST_SESSIONS)
            && (Parameters(CreateLayout(privateMax, publicMax, hashOut, hashMax, ticketOut, ticketMax), data, 10,
                           Length(data))
                <==>
                && |private| + 2 <= privateMax as int && |public| + 2 <= publicMax as int
                && (hashOut != null ==> |hash| + 2 <= hashMax as int)
                && (ticketOut != null ==> |digest| + 8 <= ticketMax as int))
  {
    var items := CreateLayout(privateMax, publicMax, hashOut, hashMax, ticketOut, ticketMax);
    var parts := [SizedField(private), SizedField(public), SizedField(creation), SizedField(hash),
                  TicketField(ticket, hierarchy, digest)];
    SizedFieldRead(private);
    SizedFieldRead(public);
    SizedFieldRead(creation);
    SizedFieldRead(hash);
    TicketFieldRead(ticket, hierarchy, digest);
    hide SizedField, TicketField, Field;
    JoinedFive(parts[0], parts[1], parts[2], parts[3], parts[4]);
    assert Matching(items, parts);
    assert Parts(items, parts) <==>
             && |private| + 2 <= privateMax as int && |public| + 2 <= publicMax as int
             && (hashOut != null ==> |hash| + 2 <= hashMax as int)
             && (ticketOut != null ==> |digest| + 8 <= ticketMax as int);
    ReplyIff(items, parts, code, [], rest);
  }

  /** TPM2_CertifyCreation: the attestation and an RSASSA signature. */
  lemma CertifyReplyIff(info: seq<byte>, hash: nat, signature: seq<byte>, code: nat, rest: seq<byte>, infoMax: uint16,
                        signatureMax: uint16)
    requires |info| < 0x1_0000 && |signature| < 0x1_0000 && hash < 0x1_0000
    requires code < 0x1_0000_0000 && |rest| < 0x1_0000
    ensures var data := Reply(0x8002, code, [], SizedField(info) + SignatureField(hash, signature), rest);
            && Received(data) && Length(data) == |data| && Tagged(data, TPM2_ST_SESSIONS)
            && (Parameters([CopyWhole(Sized, infoMax as int), CopyWhole(Signature, signatureMax as int)], data, 10,
                           Length(data))
                <==> |info| + 2 <= infoMax as int && |signature| + 6 <= signatureMax as int)
  {
    var items := [CopyWhole(Sized, infoMax as int), CopyWhole(Signature, signatureMax as int)];
    var parts := [SizedField(info), SignatureField(hash, signature)];
    SizedFieldRead(info);
    SignatureFieldRead(hash, signature);
    hide SizedField, SignatureField, Field;
    JoinedTwo(parts[0], parts[1]);
    assert Matching(items, parts);
    assert Parts(items, parts) <==> |info| + 2 <= infoMax as int && |signature| + 6 <= signatureMax as int;
    ReplyIff(items, parts, code, [], rest);
  }

  /** TPM2_PolicySecret: a timeout and a ticket, accepted whatever they contain. */
  lemma PolicySecretReply(timeout: seq<byte>, ticket: nat, hierarchy: nat, digest: seq<byte>, code: nat,
                          rest: seq<byte>)
    requires |timeout| < 0x1_0000 && |digest| < 0x1_0000 && ticket < 0x1_0000 && hierarchy < 0x1_0000_0000
    requires code < 0x1_0000_0000 && |rest| < 0x1_0000
    ensures var data := Reply(0x8002, code, [], SizedField(timeout) + TicketField(ticket, hierarchy, digest), rest);
            && Received(data) && Length(data) == |data| && Tagged(data, TPM2_ST_SESSIONS)
            && Parameters([Skip(Sized), Skip(Ticket)], data, 10, Length(data))
  {
    var items := [Skip(Sized), Skip(Ticket)];
    var parts := [SizedField(timeout), TicketField(ticket, hierarchy, digest)];
    SizedFieldRead(timeout);
    TicketFieldRead(ticket, hierarchy, digest);
    hide SizedField, TicketField, Field;
    JoinedTwo(parts[0], parts[1]);
    assert Matching(items, parts);
    assert Parts(items, parts);
    ReplyIff(items, parts, code, [], rest);
  }

  /** TPM2_RSA_Decrypt: the plaintext, then the authorisation area of nonce, attributes and HMAC. */
  lemma DecryptReplyIff(plaintext: seq<byte>, nonce: seq<byte>, attributes: byte, hmac: seq<byte>, code: nat,
                        plaintextMax: uint16, mac: (seq<byte>, seq<byte>, byte) -> seq<byte>)
    requires |plaintext| < 0x1_0000 && |nonce| < 0x1_0000 && |hmac| < 0x1_0000 && code < 0x1_0000_0000
    ensures var rest := SizedField(nonce) + [attributes] + SizedField(hmac);
            var data := Reply(0x8002, code, [], SizedField(plaintext), rest);
            && Received(data) && Length(data) == |data| && Tagged(data, TPM2_ST_SESSIONS)
            && (Parameters([CopyBody(plaintextMax as int)], data, 10, Length(data))
                <==> |plaintext| <= plaintextMax as int)
            && 14 + Be32(data, 10) <= |data|
            && (Authorised(data, 14 + Be32(data, 10), Length(data), data[14..14 + Be32(data, 10)], mac)
                <==> |nonce| <= 64 && |hmac| == 32 && hmac == mac(SizedField(plaintext), nonce, attributes))
  {
    hide SizedField, Reply, Tiles, Field, Authorised, Parameters;
    var rest := SizedField(nonce) + [attributes] + SizedField(hmac);
    SizedFieldRead(nonce);
    SizedFieldRead(plaintext);
    SizedFieldRead(hmac);
    OneBodyIff(plaintext, code, rest, plaintextMax);
    ReplyRead(0x8002, code, [], SizedField(plaintext), rest);
    var data := Reply(0x8002, code, [], SizedField(plaintext), rest);
    ReplyTail(0x8002, code, [], SizedField(plaintext), rest);
    AuthorisationIff(data, 14 + |SizedField(plaintext)|, SizedField(plaintext), nonce, attributes, hmac, mac);
  }

  lemma OneBodyIff(body: seq<byte>, code: nat, rest: seq<byte>, max: uint16)
    requires |body| < 0x1_0000 && code < 0x1_0000_0000 && |rest| < 0x10_0000
    ensures var data := Reply(0x8002, code, [], SizedField(body), rest);
            && Received(data) && Length(data) == |data| && Tagged(data, TPM2_ST_SESSIONS)
            && (Parameters([CopyBody(max as int)], data, 10, Length(data)) <==> |body| <= max as int)
  {
    var items := [CopyBody(max as int)];
    var parts := [SizedField(body)];
    SizedFieldRead(body);
    hide SizedField, Field;
    JoinedOne(parts[0]);
    assert Matching(items, parts);
    assert Parts(items, parts) <==> |body| <= max as int;
    ReplyIff(items, parts, code, [], rest);
  }

  lemma ReplyTail(tag: nat, code: nat, handles: seq<byte>, area: seq<byte>, rest: seq<byte>)
    requires tag < 0x1_0000 && code < 0x1_0000_0000 && 14 + |handles| + |area| + |rest| < 0x1_0000_0000
    ensures Reply(tag, code, handles, area, rest)[14 + |handles| + |area|..] == rest
  {
  }

  /** Where nonce, attributes and HMAC are. */
  lemma AuthorisationPlaces(data: seq<byte>, at: nat, nonce: seq<byte>, attributes: byte, hmac: seq<byte>)
    requires |nonce| < 0x1_0000 && |hmac| < 0x1_0000 && at <= |data|
    requires data[at..] == SizedField(nonce) + [attributes] + SizedField(hmac)
    ensures var nonceEnd := at + 2 + |nonce|;
            && |data| == nonceEnd + 3 + |hmac| && data[nonceEnd] == attributes
            && data[at..nonceEnd] == SizedField(nonce) && data[nonceEnd + 1..] == SizedField(hmac)
            && data[at + 2..nonceEnd] == nonce && data[nonceEnd + 3..] == hmac
  {
    var nonceEnd := at + 2 + |nonce|;
    SizedFieldRead(nonce);
    SizedFieldRead(hmac);
    assert data[at..nonceEnd] == data[at..][..|nonce| + 2] == SizedField(nonce);
    assert data[nonceEnd] == data[at..][|nonce| + 2] == attributes;
    assert data[nonceEnd + 1..] == data[at..][|nonce| + 3..] == SizedField(hmac);
    assert data[at + 2..nonceEnd] == SizedField(nonce)[2..] == nonce;
    assert data[nonceEnd + 3..] == SizedField(hmac)[2..] == hmac;
  }

  lemma AuthorisationIff(data: seq<byte>, at: nat, parameters: seq<byte>, nonce: seq<byte>, attributes: byte,
                         hmac: seq<byte>, mac: (seq<byte>, seq<byte>, byte) -> seq<byte>)
    requires |nonce| < 0x1_0000 && |hmac| < 0x1_0000 && at <= |data|
    requires data[at..] == SizedField(nonce) + [attributes] + SizedField(hmac)
    ensures Authorised(data, at, |data|, parameters, mac)
       <==> |nonce| <= 64 && |hmac| == 32 && hmac == mac(parameters, nonce, attributes)
  {
    var nonceEnd := at + 2 + |nonce|;
    AuthorisationPlaces(data, at, nonce, attributes, hmac);
    SizedFieldRead(nonce);
    SizedFieldRead(hmac);
    hide SizedField;
    FieldMoves(NONCE_ITEM, SizedField(nonce), data, at);
    KindMoves(Sized, SizedField(nonce), data, at);
    KindMoves(Sized, SizedField(hmac), data, nonceEnd + 1);
    OneEnd(NONCE_ITEM, data, at, nonceEnd);
    if |nonce| <= 64 {
      AuthorisedParts(data, at, |data|, parameters, mac, nonceEnd);
      assert data[nonceEnd + 3..|data|] == hmac;
    }
  }
}
