/**
 * FastLink packets: a 24-byte header in network order, then the payload.
 * `PacketHeader.encode/decode` and `FastLinkPacket.encode/decode`.
 */
module FastLinkPacket {
  import opened Bytes
  import opened Crc32

  const HEADER_SIZE: nat := 24

  const MAGIC: bytes := [0x46, 0x4C, 0x4E, 0x4B]

  /** The members of the `PacketType` enumeration. */
  predicate KnownType(t: int) {
    0x01 <= t <= 0x05 || 0x10 <= t <= 0x16 || 0x20 <= t <= 0x25
  }

  datatype Header = Header(
    version: int, packetType: int, sequence: int, timestamp: int, payloadLength: int, checksum: int)

  /** What `decode` does: return None, raise ValueError for a type outside the enumeration, or return a value. */
  datatype Outcome<+T> = Rejected | UnknownType | Decoded(value: T)

  datatype Packet = Packet(header: Header, payload: bytes)

  /** `struct.pack('>4sHHIIII', ...)` raises unless every field fits. */
  predicate Fits(h: Header) {
    InU16(h.version) && InU16(h.packetType) && InU32(h.sequence) && InU32(h.timestamp) &&
    InU32(h.payloadLength) && InU32(h.checksum)
  }

  function EncodeHeader(h: Header): (r: Option<bytes>)
    ensures r.Some? ==> |r.value| == HEADER_SIZE
  {
    if Fits(h) then
      Some(MAGIC + PutU16(h.version) + PutU16(h.packetType) + PutU32(h.sequence) + PutU32(h.timestamp) +
           PutU32(h.payloadLength) + PutU32(h.checksum))
    else None
  }

  function DecodeHeader(data: bytes): Outcome<Header> {
    if |data| < HEADER_SIZE || data[..4] != MAGIC then Rejected
    else
      var h := Header(GetU16(data[4..6]), GetU16(data[6..8]), GetU32(data[8..12]), GetU32(data[12..16]),
                      GetU32(data[16..20]), GetU32(data[20..24]));
      if KnownType(h.packetType) then Decoded(h) else UnknownType
  }

  function DecodePacket(data: bytes): Outcome<Packet> {
    match DecodeHeader(data)
    case Rejected => Rejected
    case UnknownType => UnknownType
    case Decoded(h) =>
      if |data| < HEADER_SIZE + h.payloadLength then Rejected
      else
        var payload := data[HEADER_SIZE..HEADER_SIZE + h.payloadLength];
        if Checksum(payload) != h.checksum then Rejected else Decoded(Packet(h, payload))
  }

  /** The packet object: `encode` stamps three header fields before packing. */
  class FastLinkPacket {
    var header: Header
    var payload: bytes

    constructor (header: Header, payload: bytes)
      ensures this.header == header && this.payload == payload
    {
      this.header := header;
      this.payload := payload;
    }

    /** `now` is the clock in milliseconds since 1970. None stands for the `struct.error`; the stamps remain. */
    method Encode(now: int) returns (r: Option<bytes>)
      modifies this`header
      ensures header == Stamped(old(header), payload, now)
      ensures r == Wire(old(header), payload, now)
    {
      header := header.(payloadLength := |payload|);
      header := header.(checksum := Checksum(payload));
      header := header.(timestamp := now);
      var head := EncodeHeader(header);
      r := match head case None => None case Some(b) => Some(b + payload);
    }
  }

  function Stamped(h: Header, payload: bytes, now: int): Header {
    h.(payloadLength := |payload|, checksum := Checksum(payload), timestamp := now)
  }

  function Wire(h: Header, payload: bytes, now: int): Option<bytes> {
    match EncodeHeader(Stamped(h, payload, now)) case None => None case Some(b) => Some(b + payload)
  }

  // ---------------------------------------------------------------- theorems

  /** What a caller of `encode` can check beforehand. */
  predicate Sendable(h: Header, payload: bytes, now: int) {
    InU16(h.version) && InU16(h.packetType) && InU32(h.sequence) && InU32(now) && |payload| < 0x1_0000_0000
  }

  /** A packet cannot be encoded once the millisecond clock leaves 32 bits, whatever else it holds. */
  lemma EncodeFailsExactly(h: Header, payload: bytes, now: int)
    ensures Wire(h, payload, now).Some? <==> Sendable(h, payload, now)
  {
  }

  /** No packet at all can be encoded from 1970-02-19 17:02:47.296 on: the first reading too large, and today's. */
  lemma NoneSince1970(h: Header, payload: bytes, now: int)
    ensures now >= 4_294_967_296 ==> Wire(h, payload, now) == None
    ensures Wire(h, payload, 1_735_689_600_000) == None
  {
    EncodeFailsExactly(h, payload, now);
    EncodeFailsExactly(h, payload, 1_735_689_600_000);
  }

  /** Header decoding inverts header encoding, whatever follows the header. */
  lemma HeaderRoundTrip(h: Header, rest: bytes)
    requires Fits(h) && KnownType(h.packetType)
    ensures DecodeHeader(EncodeHeader(h).value + rest) == Decoded(h)
  {
    var data := EncodeHeader(h).value + rest;
    U16RoundTrip(h.version);
    U16RoundTrip(h.packetType);
    U32RoundTrip(h.sequence);
    U32RoundTrip(h.timestamp);
    U32RoundTrip(h.payloadLength);
    U32RoundTrip(h.checksum);
    assert data[..4] == MAGIC;
    assert data[4..6] == PutU16(h.version) && data[6..8] == PutU16(h.packetType);
    assert data[8..12] == PutU32(h.sequence) && data[12..16] == PutU32(h.timestamp);
    assert data[16..20] == PutU32(h.payloadLength) && data[20..24] == PutU32(h.checksum);
  }

  /** A decoded header re-encodes to the very bytes it was read from. */
  lemma HeaderBack(data: bytes)
    requires DecodeHeader(data).Decoded?
    ensures var h := DecodeHeader(data).value;
            Fits(h) && KnownType(h.packetType) && EncodeHeader(h).value == data[..HEADER_SIZE]
  {
    var h := DecodeHeader(data).value;
    U16Back(data[4..6]);
    U16Back(data[6..8]);
    U32Back(data[8..12]);
    U32Back(data[12..16]);
    U32Back(data[16..20]);
    U32Back(data[20..24]);
    assert data[..HEADER_SIZE] ==
           data[..4] + data[4..6] + data[6..8] + data[8..12] + data[12..16] + data[16..20] + data[20..24];
  }

  /** Behind a header that reads as h, the outcome depends only on the payload's checksum. */
  lemma DecodeBody(head: bytes, h: Header, body: bytes, rest: bytes)
    requires |head| == HEADER_SIZE && DecodeHeader(head + body + rest) == Decoded(h)
    requires h.payloadLength == |body|
    ensures DecodePacket(head + body + rest) ==
            if Checksum(body) == h.checksum then Decoded(Packet(h, body)) else Rejected
  {
    assert (head + body + rest)[HEADER_SIZE..HEADER_SIZE + |body|] == body;
  }

  lemma DecodeWire(h: Header, body: bytes, rest: bytes)
    requires Fits(h) && KnownType(h.packetType) && h.payloadLength == |body|
    ensures DecodePacket(EncodeHeader(h).value + body + rest) ==
            if Checksum(body) == h.checksum then Decoded(Packet(h, body)) else Rejected
  {
    var head := EncodeHeader(h).value;
    HeaderRoundTrip(h, body + rest);
    assert head + (body + rest) == head + body + rest;
    DecodeBody(head, h, body, rest);
  }

  lemma SplitAt(data: bytes, i: nat, j: nat)
    requires i <= j <= |data|
    ensures data[..i] + data[i..j] <= data
  {
    assert data[..i] + data[i..j] == data[..j];
  }

  /** What a successful decode says about its input. */
  lemma DecodeSound(data: bytes)
    requires DecodePacket(data).Decoded?
    ensures var p := DecodePacket(data).value;
            Fits(p.header) && KnownType(p.header.packetType) &&
            p.header.payloadLength == |p.payload| && p.header.checksum == Checksum(p.payload) &&
            EncodeHeader(p.header).value + p.payload <= data
  {
    HeaderBack(data);
    SplitAt(data, HEADER_SIZE, HEADER_SIZE + DecodeHeader(data).value.payloadLength);
  }

  lemma DecodeComplete(data: bytes, p: Packet)
    requires Fits(p.header) && KnownType(p.header.packetType)
    requires p.header.payloadLength == |p.payload| && p.header.checksum == Checksum(p.payload)
    requires EncodeHeader(p.header).value + p.payload <= data
    ensures DecodePacket(data) == Decoded(p)
  {
    var whole := EncodeHeader(p.header).value + p.payload;
    DecodeWire(p.header, p.payload, data[|whole|..]);
    assert data == whole + data[|whole|..];
  }

  /** Exactly which inputs decode, and to what. */
  lemma DecodesExactly(data: bytes, p: Packet)
    ensures DecodePacket(data) == Decoded(p) <==>
            Fits(p.header) && KnownType(p.header.packetType) &&
            p.header.payloadLength == |p.payload| && p.header.checksum == Checksum(p.payload) &&
            EncodeHeader(p.header).value + p.payload <= data
  {
    if DecodePacket(data) == Decoded(p) {
      DecodeSound(data);
    } else if Fits(p.header) && KnownType(p.header.packetType) && p.header.payloadLength == |p.payload| &&
              p.header.checksum == Checksum(p.payload) && EncodeHeader(p.header).value + p.payload <= data {
      DecodeComplete(data, p);
    }
  }

  /** Decode undoes encode, with anything behind the packet: the fields as given, but for the three stamps. */
  lemma PacketRoundTrip(h: Header, payload: bytes, now: int, rest: bytes)
    requires KnownType(h.packetType) && Sendable(h, payload, now)
    ensures Wire(h, payload, now).Some?
    ensures DecodePacket(Wire(h, payload, now).value + rest) ==
            Decoded(Packet(Header(h.version, h.packetType, h.sequence, now, |payload|, Checksum(payload)), payload))
  {
    DecodesExactly(Wire(h, payload, now).value + rest, Packet(Stamped(h, payload, now), payload));
  }

  /** "FLNK". */
  const FLNK: bytes := [0x46, 0x4C, 0x4E, 0x4B]

  /** Where each field stands in an encoded packet, in network order. */
  lemma WireLayout(h: Header, payload: bytes, now: int)
    requires Sendable(h, payload, now)
    ensures Wire(h, payload, now).Some? && |Wire(h, payload, now).value| == 24 + |payload|
    ensures var w := Wire(h, payload, now).value;
            && w[..4] == FLNK && BigEndian(w[4..6]) == h.version && BigEndian(w[6..8]) == h.packetType
            && BigEndian(w[8..12]) == h.sequence && BigEndian(w[12..16]) == now
            && BigEndian(w[16..20]) == |payload| && BigEndian(w[20..24]) == Checksum(payload) && w[24..] == payload
  {
    var s, w := Stamped(h, payload, now), Wire(h, payload, now).value;
    HeaderLayout(s, payload);
    assert w == EncodeHeader(s).value + payload;
  }

  lemma HeaderLayout(h: Header, rest: bytes)
    requires Fits(h)
    ensures var w := EncodeHeader(h).value + rest;
            && |w| == 24 + |rest| && w[..4] == FLNK && w[24..] == rest
            && BigEndian(w[4..6]) == h.version && BigEndian(w[6..8]) == h.packetType
            && BigEndian(w[8..12]) == h.sequence && BigEndian(w[12..16]) == h.timestamp
            && BigEndian(w[16..20]) == h.payloadLength && BigEndian(w[20..24]) == h.checksum
  {
    var w := EncodeHeader(h).value + rest;
    PutIsBigEndian(h.version);
    PutIsBigEndian(h.packetType);
    PutIsBigEndian(h.sequence);
    PutIsBigEndian(h.timestamp);
    PutIsBigEndian(h.payloadLength);
    PutIsBigEndian(h.checksum);
    assert w[4..6] == PutU16(h.version) && w[6..8] == PutU16(h.packetType);
    assert w[8..12] == PutU32(h.sequence) && w[12..16] == PutU32(h.timestamp);
    assert w[16..20] == PutU32(h.payloadLength) && w[20..24] == PutU32(h.checksum);
  }

  /** The types of the enumeration: five between peers, seven to the server and six between games. */
  const TYPES: set<int> := {
    0x01, 0x02, 0x03, 0x04, 0x05, 0x10, 0x11, 0x12, 0x13, 0x14, 0x15, 0x16, 0x20, 0x21, 0x22, 0x23, 0x24, 0x25}

  /**
   * How any input is decoded, by its own bytes: one that is too short or begins with something else is rejected, a
   * type outside the enumeration raises, and a payload that is not all there or has another checksum is rejected.
   */
  lemma OutcomesExactly(data: bytes)
    ensures var headed := |data| >= 24 && data[..4] == FLNK;
            && (DecodePacket(data) == UnknownType <==> headed && BigEndian(data[6..8]) !in TYPES)
            && (DecodePacket(data).Decoded? <==>
                  && headed && BigEndian(data[6..8]) in TYPES && 24 + BigEndian(data[16..20]) <= |data|
                  && Checksum(data[24..24 + BigEndian(data[16..20])]) == BigEndian(data[20..24]))
  {
    if |data| >= 24 {
      GetIsBigEndian(data[6..8]);
      GetIsBigEndian(data[16..20]);
      GetIsBigEndian(data[20..24]);
      TypesAre(GetU16(data[6..8]));
    }
  }

  lemma TypesAre(t: int)
    ensures KnownType(t) <==> t in TYPES
  {
  }

  /** A packet cut anywhere short of its end is rejected. */
  lemma TruncationRejected(h: Header, payload: bytes, now: int, n: nat)
    requires KnownType(h.packetType) && Sendable(h, payload, now)
    requires n < |Wire(h, payload, now).value|
    ensures DecodePacket(Wire(h, payload, now).value[..n]) == Rejected
  {
    var s := Stamped(h, payload, now);
    if n >= HEADER_SIZE {
      PrefixOf(EncodeHeader(s).value, payload, n);
      CutPayload(s, payload[..n - HEADER_SIZE]);
    }
  }

  lemma PrefixOf(head: bytes, payload: bytes, n: nat)
    requires |head| <= n <= |head + payload|
    ensures (head + payload)[..n] == head + payload[..n - |head|]
  {
  }

  lemma CutPayload(h: Header, cut: bytes)
    requires Fits(h) && KnownType(h.packetType) && |cut| < h.payloadLength
    ensures DecodePacket(EncodeHeader(h).value + cut) == Rejected
  {
    HeaderRoundTrip(h, cut);
  }

  /**
   * Damage to the payload confined to a burst of at most 32 bits, wherever it starts and however long
   * the payload, makes `decode` return None.
   */
  lemma BurstRejected(h: Header, payload: bytes, now: int, damaged: bytes, at: nat)
    requires KnownType(h.packetType) && Sendable(h, payload, now)
    requires |damaged| == |payload| && damaged != payload && AgreeOutsideBurst(payload, damaged, at)
    ensures DecodePacket(EncodeHeader(Stamped(h, payload, now)).value + damaged) == Rejected
  {
    var s := Stamped(h, payload, now);
    DecodeWire(s, damaged, []);
    assert EncodeHeader(s).value + damaged + [] == EncodeHeader(s).value + damaged;
    BurstDetected(payload, damaged, at);
  }

  /** The same for damage confined to four consecutive bytes. */
  lemma FourByteDamageRejected(h: Header, payload: bytes, now: int, damaged: bytes, at: nat)
    requires KnownType(h.packetType) && Sendable(h, payload, now)
    requires |damaged| == |payload| && damaged != payload
    requires forall k :: 0 <= k < |payload| && !(at <= k < at + 4) ==> damaged[k] == payload[k]
    ensures DecodePacket(EncodeHeader(Stamped(h, payload, now)).value + damaged) == Rejected
  {
    var s := Stamped(h, payload, now);
    DecodeWire(s, damaged, []);
    assert EncodeHeader(s).value + damaged + [] == EncodeHeader(s).value + damaged;
    FourBytesDetected(payload, damaged, at);
  }
}
