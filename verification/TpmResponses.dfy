/**
 The response parsers of trusted_hash_kmod/tpm.c. A parser walks a 32-bit offset
 over the bytes the TPM sent and copies fields into caller buffers. The layout of
 a parameter area is described independently, as fields that tile it exactly;
 each parser succeeds if and only if the area has its layout and every copied
 field fits its destination.
 */
module TpmResponses {
  import opened Bits
  import opened Machine
  import TpmSessions

  const EIO: int := -5
  const EOVERFLOW: int := -75
  const EOPNOTSUPP: int := -95

  const TPM_HEADER_SIZE: uint32 := 10
  const TPM2_ST_NO_SESSIONS: int := 0x8001
  const TPM2_ST_SESSIONS: int := 0x8002
  const TPM_ALG_RSASSA: int := 0x0014

  // ---------------------------------------------------------------------
  // The wire format
  // ---------------------------------------------------------------------

  function Be16(data: seq<byte>, at: nat): (v: nat)
    requires at + 2 <= |data|
    ensures v < 0x1_0000
  {
    data[at] as int * 0x100 + data[at + 1] as int
  }

  function Be32(data: seq<byte>, at: nat): (v: nat)
    requires at + 4 <= |data|
    ensures v < 0x1_0000_0000
  {
    Be16(data, at) * 0x1_0000 + Be16(data, at + 2)
  }

  /** A response as the transport hands it over: a header whose length field the buffer covers. */
  ghost predicate Received(data: seq<byte>) {
    |data| >= 10 && Be32(data, 2) <= |data|
  }

  datatype Kind = Sized | Ticket | Signature

  /** The field of this kind that starts at off ends at end. */
  ghost predicate Field(kind: Kind, data: seq<byte>, off: nat, end: nat) {
    match kind
    case Sized => off + 2 <= |data| && end == off + 2 + Be16(data, off)
    case Ticket => off + 8 <= |data| && end == off + 8 + Be16(data, off + 6)
    case Signature =>
      off + 6 <= |data| && Be16(data, off) == TPM_ALG_RSASSA && end == off + 6 + Be16(data, off + 4)
  }

  /** What is done with a field: nothing, or a copy of it, with or without its size prefix, into max bytes. */
  datatype Item = Skip(kind: Kind) | CopyWhole(kind: Kind, max: nat) | CopyBody(max: nat)

  ghost predicate Fits(item: Item, data: seq<byte>, off: nat, end: nat) {
    match item
    case Skip(kind) => Field(kind, data, off, end)
    case CopyWhole(kind, max) => Field(kind, data, off, end) && end - off <= max
    case CopyBody(max) => Field(Sized, data, off, end) && end - off - 2 <= max
  }

  /** No field that meets the item starts at off and ends within the first len bytes. */
  ghost predicate NoneFits(item: Item, data: seq<byte>, off: nat, len: nat) {
    forall end: nat :: Fits(item, data, off, end) ==> end > len
  }

  /** The items follow each other from off and end exactly at end. */
  ghost predicate Tiles(items: seq<Item>, data: seq<byte>, off: nat, end: nat)
    decreases |items|
  {
    if items == [] then off == end
    else exists mid: nat :: Fits(items[0], data, off, mid) && mid <= end && Tiles(items[1..], data, mid, end)
  }

  /** A parameter area announced at at lies inside the response and has this layout. */
  ghost predicate Parameters(items: seq<Item>, data: seq<byte>, at: nat, len: nat)
    requires len <= |data|
  {
    && at + 4 <= len && at + 4 + Be32(data, at) <= len
    && Tiles(items, data, at + 4, at + 4 + Be32(data, at))
  }

  lemma FitsOnce(item: Item, data: seq<byte>, off: nat, a: nat, b: nat)
    requires Fits(item, data, off, a) && Fits(item, data, off, b)
    ensures a == b
  {
  }

  /** Reading one field leaves the rest of the layout to be read. */
  lemma TakeField(items: seq<Item>, data: seq<byte>, off: nat, mid: nat, end: nat)
    requires items != [] && Fits(items[0], data, off, mid)
    ensures Tiles(items, data, off, end) <==> mid <= end && Tiles(items[1..], data, mid, end)
  {
    if Tiles(items, data, off, end) {
      var m: nat :| Fits(items[0], data, off, m) && m <= end && Tiles(items[1..], data, m, end);
      FitsOnce(items[0], data, off, m, mid);
    }
  }

  lemma NoField(items: seq<Item>, data: seq<byte>, off: nat, len: nat, end: nat)
    requires items != [] && end <= len && NoneFits(items[0], data, off, len)
    ensures !Tiles(items, data, off, end)
  {
  }

  lemma {:induction false} TilesForward(items: seq<Item>, data: seq<byte>, off: nat, end: nat)
    requires Tiles(items, data, off, end)
    ensures off <= end
    decreases |items|
  {
    if items != [] {
      var mid: nat :| Fits(items[0], data, off, mid) && mid <= end && Tiles(items[1..], data, mid, end);
      TilesForward(items[1..], data, mid, end);
    }
  }

  // ---------------------------------------------------------------------
  // The field parsers
  // ---------------------------------------------------------------------

  /** The 32-bit test that len more bytes follow offset: exact, with no overflow. */
  function RequireBytes(responseLen: uint32, offset: uint32, len: uint32): (ok: bool)
    ensures ok <==> offset as int + len as int <= responseLen as int
  {
    !(offset > responseLen || len > responseLen - offset)
  }

  method ReadBe16(data: seq<byte>, at: uint32) returns (v: uint16)
    requires at as int + 2 <= |data|
    ensures v as int == Be16(data, at as int)
  {
    v := Be16(data, at as int) as uint16;
  }

  method ReadBe32(data: seq<byte>, at: uint32) returns (v: uint32)
    requires at as int + 4 <= |data|
    ensures v as int == Be32(data, at as int)
  {
    v := Be32(data, at as int) as uint32;
  }

  /** The first |src| bytes of out are now src, the others are as before. */
  ghost predicate Holds(now: seq<byte>, was: seq<byte>, src: seq<byte>) {
    |now| == |was| && |src| <= |now| && now == src + was[|src|..]
  }

  method MemCpy(out: array<byte>, data: seq<byte>, from: uint32, size: uint32)
    requires from as int + size as int <= |data| && size as int <= out.Length
    modifies out
    ensures Holds(out[..], old(out[..]), data[from as int..from as int + size as int])
  {
    var i := 0;
    while i < size as int
      invariant 0 <= i <= size as int
      invariant forall k :: 0 <= k < i ==> out[k] == data[from as int + k]
      invariant forall k :: i <= k < out.Length ==> out[k] == old(out[k])
    {
      out[i] := data[from as int + i];
      i := i + 1;
    }
  }

  lemma TicketBody(data: seq<byte>, off: nat, len: nat)
    requires NoneFits(Skip(Sized), data, off + 6, len)
    ensures forall end: nat :: Field(Ticket, data, off, end) ==> end > len
  {
    forall end: nat | Field(Ticket, data, off, end)
      ensures end > len
    {
      assert Fits(Skip(Sized), data, off + 6, end);
    }
  }

  method SkipTpm2b(data: seq<byte>, responseLen: uint32, offset: uint32) returns (rc: int, next: uint32)
    requires responseLen as int <= |data|
    ensures rc == 0 ==> Fits(Skip(Sized), data, offset as int, next as int) && next <= responseLen
    ensures rc != 0 ==> NoneFits(Skip(Sized), data, offset as int, responseLen as int)
  {
    next := offset;
    if !RequireBytes(responseLen, offset, 2) {
      return EIO, next;
    }
    var size := ReadBe16(data, offset);
    next := offset + 2;
    if !RequireBytes(responseLen, next, size as uint32) {
      return EIO, next;
    }
    next := next + size as uint32;
    rc := 0;
  }

  function CopyItem(outMax: uint16, includeSize: bool): Item {
    if includeSize then CopyWhole(Sized, outMax as int) else CopyBody(outMax as int)
  }

  method CopyTpm2b(data: seq<byte>, responseLen: uint32, offset: uint32, out: array<byte>, outMax: uint16,
                   includeSize: bool)
    returns (rc: int, next: uint32, outSize: uint16)
    requires responseLen as int <= |data| && outMax as int <= out.Length
    modifies out
    ensures rc == 0 ==>
              && Fits(CopyItem(outMax, includeSize), data, offset as int, next as int)
              && offset as int + 2 <= next as int <= responseLen as int
    ensures rc == 0 ==>
              && var from := offset as int + (if includeSize then 0 else 2);
              && Holds(out[..], old(out[..]), data[from..next as int]) && outSize as int == next as int - from
    ensures rc != 0 ==>
              && out[..] == old(out[..])
              && NoneFits(CopyItem(outMax, includeSize), data, offset as int, responseLen as int)
  {
    next, outSize := offset, 0;
    if !RequireBytes(responseLen, offset, 2) {
      return EIO, next, 0;
    }
    var size := ReadBe16(data, offset);
    next := offset + 2;
    if !RequireBytes(responseLen, next, size as uint32) {
      return EIO, next, 0;
    }
    if includeSize {
      if size as int + 2 > outMax as int {
        return EOVERFLOW, next, 0;
      }
      MemCpy(out, data, offset, size as uint32 + 2);
      outSize := size + 2;
    } else {
      if size > outMax {
        return EOVERFLOW, next, 0;
      }
      MemCpy(out, data, next, size as uint32);
      outSize := size;
    }
    next := next + size as uint32;
    rc := 0;
  }

  method CopyTpmtSignature(data: seq<byte>, responseLen: uint32, offset: uint32, signature: array<byte>,
                           signatureMax: uint16)
    returns (rc: int, next: uint32, signatureSize: uint16)
    requires responseLen as int <= |data| && signatureMax as int <= signature.Length
    modifies signature
    ensures rc == 0 ==>
              && Fits(CopyWhole(Signature, signatureMax as int), data, offset as int, next as int)
              && offset <= next <= responseLen
              && Holds(signature[..], old(signature[..]), data[offset as int..next as int])
              && signatureSize as int == next as int - offset as int
    ensures rc != 0 ==>
              && signature[..] == old(signature[..])
              && NoneFits(CopyWhole(Signature, signatureMax as int), data, offset as int, responseLen as int)
  {
    next, signatureSize := offset, 0;
    if !RequireBytes(responseLen, offset, 4) {
      return EIO, next, 0;
    }
    var algorithm := ReadBe16(data, offset);
    next := offset + 2;
    if algorithm as int != TPM_ALG_RSASSA {
      return EOPNOTSUPP, next, 0;
    }
    next := next + 2;
    if !RequireBytes(responseLen, next, 2) {
      return EIO, next, 0;
    }
    var size := ReadBe16(data, next);
    next := next + 2;
    if !RequireBytes(responseLen, next, size as uint32) {
      return EIO, next, 0;
    }
    next := next + size as uint32;
    if next - offset > signatureMax as uint32 {
      return EOVERFLOW, next, 0;
    }
    MemCpy(signature, data, offset, next - offset);
    return 0, next, (next - offset) as uint16;
  }

  /** ticket is null when the caller does not want the ticket; then nothing is copied. */
  method CopyCreationTicket(data: seq<byte>, responseLen: uint32, offset: uint32, ticket: array?<byte>,
                            ticketMax: uint16)
    returns (rc: int, next: uint32, ticketSize: uint16)
    requires responseLen as int <= |data| && (ticket != null ==> ticketMax as int <= ticket.Length)
    modifies if ticket == null then {} else {ticket}
    ensures rc == 0 ==> Fits(TicketItem(ticket, ticketMax), data, offset as int, next as int)
                        && offset <= next <= responseLen
    ensures rc == 0 && ticket != null ==>
              && Holds(ticket[..], old(ticket[..]), data[offset as int..next as int])
              && ticketSize as int == next as int - offset as int
    ensures rc != 0 ==>
              && (ticket != null ==> ticket[..] == old(ticket[..]))
              && NoneFits(TicketItem(ticket, ticketMax), data, offset as int, responseLen as int)
  {
    next, ticketSize := offset, 0;
    if !RequireBytes(responseLen, offset, 6) {
      return EIO, next, 0;
    }
    next := offset + 6;
    rc, next := SkipTpm2b(data, responseLen, next);
    if rc != 0 {
      TicketBody(data, offset as int, responseLen as int);
      return;
    }
    if ticket == null {
      return;
    }
    if next - offset > ticketMax as uint32 {
      return EOVERFLOW, next, 0;
    }
    MemCpy(ticket, data, offset, next - offset);
    return 0, next, (next - offset) as uint16;
  }

  function TicketItem(ticket: array?<byte>, ticketMax: uint16): Item {
    if ticket == null then Skip(Ticket) else CopyWhole(Ticket, ticketMax as int)
  }

  // ---------------------------------------------------------------------
  // The commands
  // ---------------------------------------------------------------------

  ghost function Length(data: seq<byte>): nat
    requires Received(data)
  {
    Be32(data, 2)
  }

  ghost predicate Tagged(data: seq<byte>, tag: int)
    requires Received(data)
  {
    Be16(data, 0) == tag
  }

  /** The end of the parameter area as the 32-bit sum has it: it wraps when the announced size is huge. */
  function WrappedEnd(start: uint32, size: uint32): uint32 {
    ((start as int + size as int) % 0x1_0000_0000) as uint32
  }

  method OpenParameters(data: seq<byte>, responseLen: uint32, at: uint32) returns (rc: int, start: uint32, end: uint32)
    requires responseLen as int <= |data| && at as int + 4 < 0x1_0000_0000
    ensures rc == 0 ==>
              && start as int == at as int + 4 <= responseLen as int && end <= responseLen
              && end == WrappedEnd(start, Be32(data, at as int) as uint32)
    ensures rc != 0 ==> at as int + 4 > responseLen as int
                        || at as int + 4 + Be32(data, at as int) > responseLen as int
  {
    start, end := at, at;
    if !RequireBytes(responseLen, at, 4) {
      return EIO, start, end;
    }
    var size := ReadBe32(data, at);
    start := at + 4;
    end := WrappedEnd(start, size);
    rc := if end > responseLen then EIO else 0;
  }

  /** A parse that stops exactly at the 32-bit end stopped at the true end, which did not wrap. */
  lemma ExactEnd(start: uint32, size: uint32, offset: uint32, responseLen: uint32)
    requires start <= offset && WrappedEnd(start, size) <= responseLen
    ensures offset == WrappedEnd(start, size) <==>
            start as int + size as int <= responseLen as int && offset as int == start as int + size as int
    ensures offset == WrappedEnd(start, size) ==> start as int + size as int < 0x1_0000_0000
  {
  }

  /** How the parse of a parameter area stands when left is still to be read from offset. */
  ghost predicate Reading(items: seq<Item>, left: seq<Item>, data: seq<byte>, at: nat, len: nat, offset: nat) {
    && at + 4 <= len <= |data| && at + 4 <= offset
    && (Parameters(items, data, at, len) <==>
        at + 4 + Be32(data, at) <= len && Tiles(left, data, offset, at + 4 + Be32(data, at)))
  }

  lemma ReadStart(items: seq<Item>, data: seq<byte>, at: nat, len: nat)
    requires at + 4 <= len <= |data|
    ensures Reading(items, items, data, at, len, at + 4)
  {
  }

  lemma ReadOne(items: seq<Item>, left: seq<Item>, data: seq<byte>, at: nat, len: nat, offset: nat, next: nat)
    requires Reading(items, left, data, at, len, offset) && left != []
    requires Fits(left[0], data, offset, next) && offset <= next
    ensures Reading(items, left[1..], data, at, len, next)
  {
    var end := at + 4 + Be32(data, at);
    TakeField(left, data, offset, next, end);
    if Tiles(left[1..], data, next, end) {
      TilesForward(left[1..], data, next, end);
    }
  }

  lemma ReadNone(items: seq<Item>, left: seq<Item>, data: seq<byte>, at: nat, len: nat, offset: nat)
    requires Reading(items, left, data, at, len, offset) && left != [] && NoneFits(left[0], data, offset, len)
    ensures !Parameters(items, data, at, len)
  {
    var end := at + 4 + Be32(data, at);
    if end <= len {
      NoField(left, data, offset, len, end);
    }
  }

  lemma ReadAll(items: seq<Item>, data: seq<byte>, at: nat, len: uint32, offset: uint32, size: uint32)
    requires Reading(items, [], data, at, len as int, offset as int) && size as int == Be32(data, at)
    requires at + 4 < 0x1_0000_0000 && WrappedEnd((at + 4) as uint32, size) <= len
    ensures offset == WrappedEnd((at + 4) as uint32, size) <==> Parameters(items, data, at, len as int)
  {
    ExactEnd((at + 4) as uint32, size, offset, len);
  }

  /** TPM2_Unseal and TPM2_ActivateCredential: one sized field, copied without its size. */
  method ParseSizedReply(data: seq<byte>, out: array<byte>, outMax: uint16) returns (rc: int, outSize: uint16)
    requires Received(data) && outMax as int <= out.Length
    modifies out
    ensures rc == 0 <==>
            Tagged(data, TPM2_ST_SESSIONS) && Parameters([CopyBody(outMax as int)], data, 10, Length(data))
    ensures rc == 0 ==>
              && Be32(data, 10) == outSize as int + 2
              && Holds(out[..], old(out[..]), data[16..16 + outSize as int])
  {
    var tag := ReadBe16(data, 0);
    if tag as int != TPM2_ST_SESSIONS {
      return EIO, 0;
    }
    var responseLen := ReadBe32(data, 2);
    var start, end: uint32;
    rc, start, end := OpenParameters(data, responseLen, 10);
    if rc != 0 {
      return rc, 0;
    }
    ghost var items := [CopyBody(outMax as int)];
    var offset: uint32;
    rc, offset, outSize := CopyTpm2b(data, responseLen, start, out, outMax, false);
    if rc != 0 {
      ReadNone(items, items, data, 10, responseLen as int, start as int);
      return;
    }
    ReadOne(items, items, data, 10, responseLen as int, start as int, offset as int);
    ReadAll(items, data, 10, responseLen, offset, Be32(data, 10) as uint32);
    if offset != end {
      rc := EIO;
    }
  }

  /** TPM2_Load. The stage says what became of the new handle: flushed again when the body is rejected. */
  method ParseLoad(data: seq<byte>, name: array<byte>, nameMax: uint16)
    returns (stage: TpmSessions.Stage, handle: uint32, nameSize: uint16)
    requires Received(data) && nameMax as int <= name.Length
    modifies name
    ensures stage.HandleUnread? <==> !Tagged(data, TPM2_ST_SESSIONS) || Length(data) < 14
    ensures !stage.HandleUnread? ==>
              handle as int == (if stage.BodyRejected? then 0 else Be32(data, 10))
    ensures stage.Complete? <==>
            Tagged(data, TPM2_ST_SESSIONS) && Parameters([CopyBody(nameMax as int)], data, 14, Length(data))
    ensures stage.Complete? ==>
              && Be32(data, 14) == nameSize as int + 2
              && Holds(name[..], old(name[..]), data[20..20 + nameSize as int])
  {
    handle, nameSize := 0, 0;
    var tag := ReadBe16(data, 0);
    if tag as int != TPM2_ST_SESSIONS {
      return TpmSessions.HandleUnread, 0, 0;
    }
    var responseLen := ReadBe32(data, 2);
    if !RequireBytes(responseLen, TPM_HEADER_SIZE, 4) {
      return TpmSessions.HandleUnread, 0, 0;
    }
    handle := ReadBe32(data, TPM_HEADER_SIZE);
    var rc, start, end := OpenParameters(data, responseLen, TPM_HEADER_SIZE + 4);
    if rc != 0 {
      return TpmSessions.SizesRejected, handle, 0;
    }
    ghost var items := [CopyBody(nameMax as int)];
    var offset: uint32;
    rc, offset, nameSize := CopyTpm2b(data, responseLen, start, name, nameMax, false);
    if rc != 0 {
      ReadNone(items, items, data, 14, responseLen as int, start as int);
      return TpmSessions.BodyRejected, 0, nameSize;
    }
    ReadOne(items, items, data, 14, responseLen as int, start as int, offset as int);
    ReadAll(items, data, 14, responseLen, offset, Be32(data, 14) as uint32);
    if offset != end {
      return TpmSessions.BodyRejected, 0, nameSize;
    }
    stage := TpmSessions.Complete;
  }

  /** The layout of a TPM2_CreatePrimary reply: public area, creation data, creation hash, ticket, name. */
  function PrimaryLayout(publicMax: uint16, nameMax: uint16): seq<Item> {
    [CopyWhole(Sized, publicMax as int), Skip(Sized), Skip(Sized), Skip(Ticket), CopyBody(nameMax as int)]
  }

  /** TPM2_CreatePrimary; the cuts are where the five fields of the parameter area end. */
  method ParseCreatePrimary(data: seq<byte>, public: array<byte>, publicMax: uint16, name: array<byte>,
                            nameMax: uint16)
    returns (stage: TpmSessions.Stage, handle: uint32, publicSize: uint16, nameSize: uint16)
    requires Received(data) && publicMax as int <= public.Length && nameMax as int <= name.Length && public != name
    modifies public, name
    ensures stage.HandleUnread? <==> !Tagged(data, TPM2_ST_SESSIONS) || Length(data) < 14
    ensures !stage.HandleUnread? ==> handle as int == (if stage.BodyRejected? then 0 else Be32(data, 10))
    ensures stage.Complete? <==>
            && Tagged(data, TPM2_ST_SESSIONS)
            && Parameters(PrimaryLayout(publicMax, nameMax), data, 14, Length(data))
    ensures stage.Complete? ==>
              && 18 + publicSize as int <= Length(data)
              && Field(Sized, data, 18, 18 + publicSize as int)
              && Holds(public[..], old(public[..]), data[18..18 + publicSize as int])
              && var end := 18 + Be32(data, 14);
              && 18 <= end - nameSize as int - 2 && end <= Length(data)
              && Field(Sized, data, end - nameSize as int - 2, end)
              && Holds(name[..], old(name[..]), data[end - nameSize as int..end])
  {
    hide Holds, Field, Tiles;
    handle, publicSize, nameSize := 0, 0, 0;
    var tag := ReadBe16(data, 0);
    if tag as int != TPM2_ST_SESSIONS {
      return TpmSessions.HandleUnread, 0, 0, 0;
    }
    var responseLen := ReadBe32(data, 2);
    if !RequireBytes(responseLen, TPM_HEADER_SIZE, 4) {
      return TpmSessions.HandleUnread, 0, 0, 0;
    }
    handle := ReadBe32(data, TPM_HEADER_SIZE);
    var rc, start, end := OpenParameters(data, responseLen, TPM_HEADER_SIZE + 4);
    if rc != 0 {
      return TpmSessions.SizesRejected, handle, 0, 0;
    }
    rc, publicSize, nameSize := ParsePrimaryBody(data, responseLen, end, public, publicMax, name, nameMax);
    if rc != 0 {
      return TpmSessions.BodyRejected, 0, publicSize, nameSize;
    }
    stage := TpmSessions.Complete;
  }

  /** The parameter area: the public area, what follows it, and nothing after that. */
  method ParsePrimaryBody(data: seq<byte>, responseLen: uint32, end: uint32, public: array<byte>, publicMax: uint16,
                          name: array<byte>, nameMax: uint16)
    returns (rc: int, publicSize: uint16, nameSize: uint16)
    requires 18 <= responseLen as int <= |data|
    requires end == WrappedEnd(18, Be32(data, 14) as uint32) && end <= responseLen
    requires publicMax as int <= public.Length && nameMax as int <= name.Length && public != name
    modifies public, name
    ensures rc == 0 <==> Parameters(PrimaryLayout(publicMax, nameMax), data, 14, responseLen as int)
    ensures rc == 0 ==>
              && 18 + publicSize as int <= responseLen as int
              && Field(Sized, data, 18, 18 + publicSize as int)
              && Holds(public[..], old(public[..]), data[18..18 + publicSize as int])
              && var end := 18 + Be32(data, 14);
              && 18 <= end - nameSize as int - 2 && end <= responseLen as int
              && Field(Sized, data, end - nameSize as int - 2, end)
              && Holds(name[..], old(name[..]), data[end - nameSize as int..end])
  {
    hide Holds, Field, Tiles, Fits, Reading, Parameters;
    nameSize := 0;
    ghost var items := PrimaryLayout(publicMax, nameMax);
    ReadStart(items, data, 14, responseLen as int);
    var offset: uint32;
    rc, offset, publicSize := CopyTpm2b(data, responseLen, 18, public, publicMax, true);
    if rc != 0 {
      ReadNone(items, items, data, 14, responseLen as int, 18);
      return;
    }
    ReadOne(items, items, data, 14, responseLen as int, 18, offset as int);
    rc, offset, nameSize := ParsePrimaryRest(data, responseLen, offset, name, nameMax, items);
    if rc != 0 {
      return;
    }
    ReadAll(items, data, 14, responseLen, offset, Be32(data, 14) as uint32);
    ExactEnd(18, Be32(data, 14) as uint32, offset, responseLen);
    if offset != end {
      rc := EIO;
    }
  }

  /** The fields after the public area. */
  method ParsePrimaryRest(data: seq<byte>, responseLen: uint32, start: uint32, name: array<byte>, nameMax: uint16,
                          ghost items: seq<Item>)
    returns (rc: int, offset: uint32, nameSize: uint16)
    requires nameMax as int <= name.Length && |items| == 5
    requires items[1..] == [Skip(Sized), Skip(Sized), Skip(Ticket), CopyBody(nameMax as int)]
    requires Reading(items, items[1..], data, 14, responseLen as int, start as int)
    modifies name
    ensures rc == 0 ==>
              && Reading(items, [], data, 14, responseLen as int, offset as int)
              && start as int + nameSize as int + 2 <= offset as int <= responseLen as int
              && Field(Sized, data, offset as int - nameSize as int - 2, offset as int)
              && Holds(name[..], old(name[..]), data[offset as int - nameSize as int..offset as int])
    ensures rc != 0 ==> !Parameters(items, data, 14, responseLen as int)
  {
    nameSize := 0;
    ghost var left := items[1..];
    rc, offset := SkipTpm2b(data, responseLen, start);
    if rc != 0 {
      ReadNone(items, left, data, 14, responseLen as int, start as int);
      return;
    }
    ReadOne(items, left, data, 14, responseLen as int, start as int, offset as int);
    var hash := offset;
    rc, offset := SkipTpm2b(data, responseLen, hash);
    if rc != 0 {
      ReadNone(items, left[1..], data, 14, responseLen as int, hash as int);
      return;
    }
    ReadOne(items, left[1..], data, 14, responseLen as int, hash as int, offset as int);
    var ticket := offset;
    var ticketSize: uint16;
    rc, offset, ticketSize := CopyCreationTicket(data, responseLen, ticket, null, 0);
    if rc != 0 {
      ReadNone(items, left[1..][1..], data, 14, responseLen as int, ticket as int);
      return;
    }
    ReadOne(items, left[1..][1..], data, 14, responseLen as int, ticket as int, offset as int);
    var last := offset;
    rc, offset, nameSize := CopyTpm2b(data, responseLen, last, name, nameMax, false);
    if rc != 0 {
      ReadNone(items, left[1..][1..][1..], data, 14, responseLen as int, last as int);
      return;
    }
    ReadOne(items, left[1..][1..][1..], data, 14, responseLen as int, last as int, offset as int);
    assert left[1..][1..][1..][1..] == [];
  }

  /** TPM2_CertifyCreation: the attestation, then an RSASSA signature. */
  method ParseCertify(data: seq<byte>, info: array<byte>, infoMax: uint16, signature: array<byte>,
                      signatureMax: uint16)
    returns (rc: int, infoSize: uint16, signatureSize: uint16)
    requires Received(data) && infoMax as int <= info.Length && signatureMax as int <= signature.Length
    requires info != signature
    modifies info, signature
    ensures rc == 0 <==>
            && Tagged(data, TPM2_ST_SESSIONS)
            && Parameters([CopyWhole(Sized, infoMax as int), CopyWhole(Signature, signatureMax as int)],
                          data, 10, Length(data))
    ensures rc == 0 ==>
              && Be32(data, 10) == infoSize as int + signatureSize as int
              && var cut := 14 + infoSize as int;
              && Field(Sized, data, 14, cut) && Field(Signature, data, cut, cut + signatureSize as int)
              && Holds(info[..], old(info[..]), data[14..cut])
              && Holds(signature[..], old(signature[..]), data[cut..cut + signatureSize as int])
  {
    hide Holds, Field, Tiles, Fits, Reading;
    infoSize, signatureSize := 0, 0;
    var tag := ReadBe16(data, 0);
    if tag as int != TPM2_ST_SESSIONS {
      return EIO, 0, 0;
    }
    var responseLen := ReadBe32(data, 2);
    var start, end: uint32;
    rc, start, end := OpenParameters(data, responseLen, TPM_HEADER_SIZE);
    if rc != 0 {
      return;
    }
    ghost var items := [CopyWhole(Sized, infoMax as int), CopyWhole(Signature, signatureMax as int)];
    ReadStart(items, data, 10, responseLen as int);
    var offset: uint32;
    rc, offset, infoSize := CopyTpm2b(data, responseLen, start, info, infoMax, true);
    if rc != 0 {
      ReadNone(items, items, data, 10, responseLen as int, start as int);
      return;
    }
    ReadOne(items, items, data, 10, responseLen as int, start as int, offset as int);
    var cut := offset;
    rc, offset, signatureSize := CopyTpmtSignature(data, responseLen, cut, signature, signatureMax);
    if rc != 0 {
      ReadNone(items, items[1..], data, 10, responseLen as int, cut as int);
      return;
    }
    ReadOne(items, items[1..], data, 10, responseLen as int, cut as int, offset as int);
    assert items[1..][1..] == [];
    ReadAll(items, data, 10, responseLen, offset, Be32(data, 10) as uint32);
    if offset != end {
      rc := EIO;
    }
  }

  /** TPM2_Sign: a signature alone. */
  method ParseSign(data: seq<byte>, signature: array<byte>, signatureMax: uint16)
    returns (rc: int, signatureSize: uint16)
    requires Received(data) && signatureMax as int <= signature.Length
    modifies signature
    ensures rc == 0 <==>
            && Tagged(data, TPM2_ST_SESSIONS)
            && Parameters([CopyWhole(Signature, signatureMax as int)], data, 10, Length(data))
    ensures rc == 0 ==>
              && Be32(data, 10) == signatureSize as int
              && Field(Signature, data, 14, 14 + signatureSize as int)
              && Holds(signature[..], old(signature[..]), data[14..14 + signatureSize as int])
  {
    var tag := ReadBe16(data, 0);
    if tag as int != TPM2_ST_SESSIONS {
      return EIO, 0;
    }
    var responseLen := ReadBe32(data, 2);
    var start, end: uint32;
    rc, start, end := OpenParameters(data, responseLen, TPM_HEADER_SIZE);
    if rc != 0 {
      return rc, 0;
    }
    ghost var items := [CopyWhole(Signature, signatureMax as int)];
    var offset: uint32;
    rc, offset, signatureSize := CopyTpmtSignature(data, responseLen, start, signature, signatureMax);
    if rc != 0 {
      ReadNone(items, items, data, 10, responseLen as int, start as int);
      return;
    }
    ReadOne(items, items, data, 10, responseLen as int, start as int, offset as int);
    ReadAll(items, data, 10, responseLen, offset, Be32(data, 10) as uint32);
    if offset != end {
      rc := EIO;
    }
  }

  function CopyItemOrSkip(out: array?<byte>, outMax: uint16): Item {
    if out == null then Skip(Sized) else CopyWhole(Sized, outMax as int)
  }

  /** The creation hash is copied only for callers that want it. */
  method CopyOrSkip(data: seq<byte>, responseLen: uint32, offset: uint32, out: array?<byte>, outMax: uint16)
    returns (rc: int, next: uint32, outSize: uint16)
    requires responseLen as int <= |data| && (out != null ==> outMax as int <= out.Length)
    modifies if out == null then {} else {out}
    ensures rc == 0 ==> Fits(CopyItemOrSkip(out, outMax), data, offset as int, next as int)
                        && offset <= next <= responseLen
    ensures rc == 0 && out != null ==>
              && Holds(out[..], old(out[..]), data[offset as int..next as int])
              && outSize as int == next as int - offset as int
    ensures rc != 0 ==> NoneFits(CopyItemOrSkip(out, outMax), data, offset as int, responseLen as int)
  {
    outSize := 0;
    if out != null {
      rc, next, outSize := CopyTpm2b(data, responseLen, offset, out, outMax, true);
    } else {
      rc, next := SkipTpm2b(data, responseLen, offset);
    }
  }

  function CreateLayout(privateMax: uint16, publicMax: uint16, hash: array?<byte>, hashMax: uint16,
                        ticket: array?<byte>, ticketMax: uint16): seq<Item> {
    [CopyWhole(Sized, privateMax as int), CopyWhole(Sized, publicMax as int), Skip(Sized),
     CopyItemOrSkip(hash, hashMax), TicketItem(ticket, ticketMax)]
  }

  /** Where a sized field that starts at at ends. */
  function SizedEnd(data: seq<byte>, at: nat): nat {
    if at + 2 <= |data| then at + 2 + Be16(data, at) else at
  }

  /** TPM2_Create: private area, public area, creation data, creation hash, ticket. The hash follows the creation data,
      whether or not the ticket is wanted. */
  method ParseCreate(data: seq<byte>, private: array<byte>, privateMax: uint16, public: array<byte>,
                     publicMax: uint16, hash: array?<byte>, hashMax: uint16, ticket: array?<byte>,
                     ticketMax: uint16)
    returns (rc: int, privateSize: uint16, publicSize: uint16, hashSize: uint16, ticketSize: uint16)
    requires Received(data) && privateMax as int <= private.Length && publicMax as int <= public.Length
    requires hash != null ==> hashMax as int <= hash.Length && hash != private && hash != public
    requires ticket != null ==> ticketMax as int <= ticket.Length && ticket != private && ticket != public
    requires private != public && (hash != null ==> hash != ticket)
    modifies private, public, if hash == null then {} else {hash}, if ticket == null then {} else {ticket}
    ensures rc == 0 <==>
            && Tagged(data, TPM2_ST_SESSIONS)
            && Parameters(CreateLayout(privateMax, publicMax, hash, hashMax, ticket, ticketMax),
                          data, 10, Length(data))
    ensures rc == 0 ==>
              var cut := 14 + privateSize as int;
              && Field(Sized, data, 14, cut) && Field(Sized, data, cut, cut + publicSize as int)
              && cut + publicSize as int <= 14 + Be32(data, 10) <= Length(data)
              && Holds(private[..], old(private[..]), data[14..cut])
              && Holds(public[..], old(public[..]), data[cut..cut + publicSize as int])
    ensures rc == 0 && ticket != null ==>
              var end := 14 + Be32(data, 10);
              && 14 <= end - ticketSize as int && Field(Ticket, data, end - ticketSize as int, end)
              && Holds(ticket[..], old(ticket[..]), data[end - ticketSize as int..end])
    ensures rc == 0 && hash != null ==>
              var at, end := SizedEnd(data, 14 + privateSize as int + publicSize as int), 14 + Be32(data, 10);
              && at + hashSize as int <= end && Field(Sized, data, at, at + hashSize as int)
              && Holds(hash[..], old(hash[..]), data[at..at + hashSize as int])
              && (ticket != null ==> at + hashSize as int == end - ticketSize as int)
  {
    hide Holds, Field, Tiles, Fits, Reading, Be32, SizedEnd;
    privateSize, publicSize, hashSize, ticketSize := 0, 0, 0, 0;
    var tag := ReadBe16(data, 0);
    if tag as int != TPM2_ST_SESSIONS {
      return EIO, 0, 0, 0, 0;
    }
    var responseLen := ReadBe32(data, 2);
    var start, end: uint32;
    rc, start, end := OpenParameters(data, responseLen, TPM_HEADER_SIZE);
    if rc != 0 {
      return;
    }
    ghost var items := CreateLayout(privateMax, publicMax, hash, hashMax, ticket, ticketMax);
    var offset: uint32;
    ReadStart(items, data, 10, responseLen as int);
    rc, offset, privateSize, publicSize := ParseKeyPair(data, responseLen, start, private, privateMax, public,
                                                        publicMax, items);
    if rc != 0 {
      return;
    }
    rc, offset, hashSize, ticketSize := ParseCreationProof(data, responseLen, offset, hash, hashMax, ticket,
                                                           ticketMax, items);
    if rc != 0 {
      return;
    }
    ReadAll(items, data, 10, responseLen, offset, Be32(data, 10) as uint32);
    if offset != end {
      rc := EIO;
    } else {
      ExactEnd(start, Be32(data, 10) as uint32, offset, responseLen);
    }
  }

  /** Private and public area of a TPM2_Create reply. */
  method ParseKeyPair(data: seq<byte>, responseLen: uint32, start: uint32, private: array<byte>, privateMax: uint16,
                      public: array<byte>, publicMax: uint16, ghost items: seq<Item>)
    returns (rc: int, offset: uint32, privateSize: uint16, publicSize: uint16)
    requires privateMax as int <= private.Length && publicMax as int <= public.Length && private != public
    requires |items| == 5
    requires items[0] == CopyWhole(Sized, privateMax as int) && items[1] == CopyWhole(Sized, publicMax as int)
    requires Reading(items, items, data, 10, responseLen as int, start as int)
    modifies private, public
    ensures rc == 0 ==>
              && Reading(items, items[1..][1..], data, 10, responseLen as int, offset as int)
              && offset as int == start as int + privateSize as int + publicSize as int <= responseLen as int
              && var cut := start as int + privateSize as int;
              && Field(Sized, data, start as int, cut) && Field(Sized, data, cut, offset as int)
              && Holds(private[..], old(private[..]), data[start as int..cut])
              && Holds(public[..], old(public[..]), data[cut..offset as int])
    ensures rc != 0 ==> !Parameters(items, data, 10, responseLen as int)
  {
    publicSize := 0;
    rc, offset, privateSize := CopyTpm2b(data, responseLen, start, private, privateMax, true);
    if rc != 0 {
      ReadNone(items, items, data, 10, responseLen as int, start as int);
      return;
    }
    ReadOne(items, items, data, 10, responseLen as int, start as int, offset as int);
    var cut := offset;
    rc, offset, publicSize := CopyTpm2b(data, responseLen, cut, public, publicMax, true);
    if rc != 0 {
      ReadNone(items, items[1..], data, 10, responseLen as int, cut as int);
      return;
    }
    ReadOne(items, items[1..], data, 10, responseLen as int, cut as int, offset as int);
  }

  /** Creation data, creation hash and ticket of a TPM2_Create reply. */
  method ParseCreationProof(data: seq<byte>, responseLen: uint32, start: uint32, hash: array?<byte>, hashMax: uint16,
                            ticket: array?<byte>, ticketMax: uint16, ghost items: seq<Item>)
    returns (rc: int, offset: uint32, hashSize: uint16, ticketSize: uint16)
    requires hash != null ==> hashMax as int <= hash.Length
    requires ticket != null ==> ticketMax as int <= ticket.Length && hash != ticket
    requires |items| == 5 && items[2..] == [Skip(Sized), CopyItemOrSkip(hash, hashMax), TicketItem(ticket, ticketMax)]
    requires Reading(items, items[1..][1..], data, 10, responseLen as int, start as int)
    modifies if hash == null then {} else {hash}, if ticket == null then {} else {ticket}
    ensures rc == 0 ==>
              && Reading(items, [], data, 10, responseLen as int, offset as int) && start <= offset <= responseLen
    ensures rc == 0 && ticket != null ==>
              && start as int <= offset as int - ticketSize as int
              && Field(Ticket, data, offset as int - ticketSize as int, offset as int)
              && Holds(ticket[..], old(ticket[..]), data[offset as int - ticketSize as int..offset as int])
    ensures rc == 0 && hash != null ==>
              var at := SizedEnd(data, start as int);
              && at + hashSize as int <= offset as int && Field(Sized, data, at, at + hashSize as int)
              && Holds(hash[..], old(hash[..]), data[at..at + hashSize as int])
              && (ticket != null ==> at + hashSize as int == offset as int - ticketSize as int)
    ensures rc != 0 ==> !Parameters(items, data, 10, responseLen as int)
  {
    assert responseLen as int <= |data|;
    hide Holds, Tiles, Reading, Parameters, Be32;
    hashSize, ticketSize := 0, 0;
    ghost var left := items[1..][1..];
    rc, offset := SkipTpm2b(data, responseLen, start);
    if rc != 0 {
      ReadNone(items, left, data, 10, responseLen as int, start as int);
      return;
    }
    ReadOne(items, left, data, 10, responseLen as int, start as int, offset as int);
    var hashAt := offset;
    rc, offset, hashSize := CopyOrSkip(data, responseLen, hashAt, hash, hashMax);
    if rc != 0 {
      ReadNone(items, left[1..], data, 10, responseLen as int, hashAt as int);
      return;
    }
    ReadOne(items, left[1..], data, 10, responseLen as int, hashAt as int, offset as int);
    var ticketAt := offset;
    rc, offset, ticketSize := CopyCreationTicket(data, responseLen, ticketAt, ticket, ticketMax);
    if rc != 0 {
      ReadNone(items, left[1..][1..], data, 10, responseLen as int, ticketAt as int);
      return;
    }
    ReadOne(items, left[1..][1..], data, 10, responseLen as int, ticketAt as int, offset as int);
    assert left[1..][1..][1..] == [];
  }

  // ---------------------------------------------------------------------
  // TPM2_RSA_Decrypt: parameters, then the authorisation area
  // ---------------------------------------------------------------------

  const NONCE_MAX: uint16 := 64
  const NONCE_ITEM: Item := CopyBody(64)
  const HMAC_SIZE: uint16 := 32

  /** From at to the very end of the response: a nonce, one byte of attributes, a 32-byte HMAC that answers the
      parameter bytes. */
  ghost predicate Authorised(data: seq<byte>, at: nat, len: nat, parameters: seq<byte>,
                             mac: (seq<byte>, seq<byte>, byte) -> seq<byte>)
    requires at <= len <= |data|
  {
    exists nonceEnd: nat ::
      && Fits(NONCE_ITEM, data, at, nonceEnd) && nonceEnd + 35 == len
      && Be16(data, nonceEnd + 1) == HMAC_SIZE as int
      && data[nonceEnd + 3..len] == mac(parameters, data[at + 2..nonceEnd], data[nonceEnd])
  }

  method ParseRsaDecrypt(data: seq<byte>, plaintext: array<byte>, plaintextMax: uint16,
                         mac: (seq<byte>, seq<byte>, byte) -> seq<byte>)
    returns (rc: int, plaintextSize: uint16)
    requires Received(data) && plaintextMax as int <= plaintext.Length
    modifies plaintext
    ensures rc == 0 <==>
            && Tagged(data, TPM2_ST_SESSIONS)
            && Parameters([CopyBody(plaintextMax as int)], data, 10, Length(data))
            && Authorised(data, 14 + Be32(data, 10), Length(data), data[14..14 + Be32(data, 10)], mac)
    ensures rc == 0 ==>
              && Be32(data, 10) == plaintextSize as int + 2
              && Holds(plaintext[..], old(plaintext[..]), data[16..16 + plaintextSize as int])
  {
    plaintextSize := 0;
    var tag := ReadBe16(data, 0);
    if tag as int != TPM2_ST_SESSIONS {
      return EIO, 0;
    }
    var responseLen := ReadBe32(data, 2);
    var start, end: uint32;
    rc, start, end := OpenParameters(data, responseLen, TPM_HEADER_SIZE);
    if rc != 0 {
      return;
    }
    ghost var items := [CopyBody(plaintextMax as int)];
    var offset: uint32;
    rc, offset, plaintextSize := CopyTpm2b(data, responseLen, start, plaintext, plaintextMax, false);
    if rc != 0 {
      ReadNone(items, items, data, 10, responseLen as int, start as int);
      return;
    }
    ReadOne(items, items, data, 10, responseLen as int, start as int, offset as int);
    ReadAll(items, data, 10, responseLen, offset, Be32(data, 10) as uint32);
    if offset != end {
      return EIO, plaintextSize;
    }
    ExactEnd(start, Be32(data, 10) as uint32, offset, responseLen);
    rc := CheckAuthorisation(data, responseLen, offset, data[start as int..offset as int], mac);
  }

  lemma AuthorisedParts(data: seq<byte>, at: nat, len: nat, parameters: seq<byte>,
                        mac: (seq<byte>, seq<byte>, byte) -> seq<byte>, nonceEnd: nat)
    requires at <= len <= |data| && Fits(NONCE_ITEM, data, at, nonceEnd)
    ensures Authorised(data, at, len, parameters, mac) <==>
            && nonceEnd + 35 == len && Be16(data, nonceEnd + 1) == HMAC_SIZE as int
            && data[nonceEnd + 3..len] == mac(parameters, data[at + 2..nonceEnd], data[nonceEnd])
    ensures Authorised(data, at, len, parameters, mac) ==>
              Fits(CopyBody(HMAC_SIZE as int), data, nonceEnd + 1, len)
  {
    forall other: nat | Fits(NONCE_ITEM, data, at, other)
      ensures other == nonceEnd
    {
      FitsOnce(NONCE_ITEM, data, at, other, nonceEnd);
    }
  }

  method CheckAuthorisation(data: seq<byte>, responseLen: uint32, start: uint32, parameters: seq<byte>,
                            mac: (seq<byte>, seq<byte>, byte) -> seq<byte>)
    returns (rc: int)
    requires start <= responseLen && responseLen as int <= |data|
    ensures rc == 0 <==> Authorised(data, start as int, responseLen as int, parameters, mac)
  {
    var nonce := new byte[64];
    var hmac := new byte[32];
    var offset: uint32;
    var nonceSize, hmacSize: uint16;
    rc, offset, nonceSize := CopyTpm2b(data, responseLen, start, nonce, NONCE_MAX, false);
    if rc != 0 {
      return;
    }
    if !RequireBytes(responseLen, offset, 1) {
      return EIO;
    }
    var attributes := data[offset as int];
    ghost var nonceEnd := offset as int;
    offset := offset + 1;
    rc, offset, hmacSize := CopyTpm2b(data, responseLen, offset, hmac, HMAC_SIZE, false);
    AuthorisedParts(data, start as int, responseLen as int, parameters, mac, nonceEnd);
    if rc != 0 {
      return;
    }
    if hmacSize != HMAC_SIZE || offset != responseLen {
      return EIO;
    }
    assert nonce[..nonceSize as int] == data[start as int + 2..nonceEnd];
    assert hmac[..] == data[nonceEnd + 3..responseLen as int];
    var expected := mac(parameters, nonce[..nonceSize as int], attributes);
    if hmac[..] != expected {
      return EIO;
    }
  }

  /** TPM2_StartAuthSession: a handle, then the nonce of the TPM, copied if the caller wants it. What may follow
      the nonce is not looked at. */
  method ParseStartSession(data: seq<byte>, nonce: array?<byte>, nonceMax: uint16)
    returns (stage: TpmSessions.Stage, handle: uint32, nonceSize: uint16)
    requires Received(data) && (nonce != null ==> nonceMax as int <= nonce.Length)
    modifies if nonce == null then {} else {nonce}
    ensures stage.HandleUnread? <==> !Tagged(data, TPM2_ST_NO_SESSIONS) || Length(data) < 14
    ensures handle as int == if stage.Complete? then Be32(data, 10) else 0
    ensures stage.Complete? <==>
            && Tagged(data, TPM2_ST_NO_SESSIONS)
            && !NoneFits(if nonce == null then Skip(Sized) else CopyBody(nonceMax as int), data, 14, Length(data))
    ensures stage.Complete? && nonce != null ==>
              && 16 + nonceSize as int <= Length(data) && nonceSize as int == Be16(data, 14)
              && Holds(nonce[..], old(nonce[..]), data[16..16 + nonceSize as int])
  {
    handle, nonceSize := 0, 0;
    var tag := ReadBe16(data, 0);
    if tag as int != TPM2_ST_NO_SESSIONS {
      return TpmSessions.HandleUnread, 0, 0;
    }
    var responseLen := ReadBe32(data, 2);
    if !RequireBytes(responseLen, TPM_HEADER_SIZE, 4) {
      return TpmSessions.HandleUnread, 0, 0;
    }
    handle := ReadBe32(data, TPM_HEADER_SIZE);
    var rc: int;
    var offset: uint32;
    if nonce != null {
      rc, offset, nonceSize := CopyTpm2b(data, responseLen, TPM_HEADER_SIZE + 4, nonce, nonceMax, false);
    } else {
      rc, offset := SkipTpm2b(data, responseLen, TPM_HEADER_SIZE + 4);
    }
    if rc != 0 {
      return TpmSessions.BodyRejected, 0, nonceSize;
    }
    stage := TpmSessions.Complete;
  }

  /** TPM2_PolicySecret: a timeout and a ticket, both ignored. */
  method ParsePolicySecret(data: seq<byte>) returns (rc: int)
    requires Received(data)
    ensures rc == 0 <==>
            Tagged(data, TPM2_ST_SESSIONS) && Parameters([Skip(Sized), Skip(Ticket)], data, 10, Length(data))
  {
    var tag := ReadBe16(data, 0);
    if tag as int != TPM2_ST_SESSIONS {
      return EIO;
    }
    var responseLen := ReadBe32(data, 2);
    var start, end: uint32;
    rc, start, end := OpenParameters(data, responseLen, TPM_HEADER_SIZE);
    if rc != 0 {
      return;
    }
    ghost var items := [Skip(Sized), Skip(Ticket)];
    var offset: uint32;
    rc, offset := SkipTpm2b(data, responseLen, start);
    if rc != 0 {
      ReadNone(items, items, data, 10, responseLen as int, start as int);
      return;
    }
    ReadOne(items, items, data, 10, responseLen as int, start as int, offset as int);
    var ticketAt := offset;
    var ticketSize: uint16;
    rc, offset, ticketSize := CopyCreationTicket(data, responseLen, ticketAt, null, 0);
    if rc != 0 {
      ReadNone(items, items[1..], data, 10, responseLen as int, ticketAt as int);
      return;
    }
    ReadOne(items, items[1..], data, 10, responseLen as int, ticketAt as int, offset as int);
    assert items[1..][1..] == [];
    ReadAll(items, data, 10, responseLen, offset, Be32(data, 10) as uint32);
    if offset != end {
      rc := EIO;
    }
  }

  // ---------------------------------------------------------------------
  // Areas that tile are exactly the concatenations of fields
  // ---------------------------------------------------------------------

  ghost function Joined(parts: seq<seq<byte>>): seq<byte> {
    if parts == [] then [] else parts[0] + Joined(parts[1..])
  }

  /** Each part on its own is the field the item asks for. */
  ghost predicate Parts(items: seq<Item>, parts: seq<seq<byte>>) {
    |parts| == |items| && forall i :: 0 <= i < |items| ==> Fits(items[i], parts[i], 0, |parts[i]|)
  }

  lemma FieldMoves(item: Item, part: seq<byte>, data: seq<byte>, off: nat)
    requires off + |part| <= |data| && data[off..off + |part|] == part
    ensures Fits(item, part, 0, |part|) <==> Fits(item, data, off, off + |part|)
  {
    assert forall k :: 0 <= k < |part| ==> part[k] == data[off + k];
  }

  lemma {:induction false} PartsTile(items: seq<Item>, parts: seq<seq<byte>>, data: seq<byte>, off: nat)
    requires Parts(items, parts) && off + |Joined(parts)| <= |data|
    requires data[off..off + |Joined(parts)|] == Joined(parts)
    ensures Tiles(items, data, off, off + |Joined(parts)|)
    decreases |items|
  {
    if items != [] {
      var mid := off + |parts[0]|;
      var rest := Joined(parts[1..]);
      assert data[off..mid] == Joined(parts)[..|parts[0]|] == parts[0];
      assert data[mid..mid + |rest|] == Joined(parts)[|parts[0]|..] == rest;
      FieldMoves(items[0], parts[0], data, off);
      assert Fits(items[0], parts[0], 0, |parts[0]|);
      PartsTile(items[1..], parts[1..], data, mid);
    }
  }

  lemma {:induction false} TilesAreParts(items: seq<Item>, data: seq<byte>, off: nat, end: nat)
    returns (parts: seq<seq<byte>>)
    requires Tiles(items, data, off, end) && end <= |data|
    ensures off <= end && Parts(items, parts) && Joined(parts) == data[off..end]
    decreases |items|
  {
    TilesForward(items, data, off, end);
    parts := [];
    if items != [] {
      var mid: nat :| Fits(items[0], data, off, mid) && mid <= end && Tiles(items[1..], data, mid, end);
      var rest := TilesAreParts(items[1..], data, mid, end);
      FieldMoves(items[0], data[off..mid], data, off);
      parts := [data[off..mid]] + rest;
      assert parts[1..] == rest;
      assert data[off..end] == data[off..mid] + data[mid..end];
    }
  }
}
