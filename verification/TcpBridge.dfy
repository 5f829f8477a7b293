/** The packets that carry a TCP stream over the P2P network, and the accounting of what was sent. */
module TcpBridge {
  import opened Bytes
  import opened Utf8

  /** `connectionId` is the encoded text; `sequence` and `flags` are whatever integers the sender put there. */
  datatype TCPPacket = TCPPacket(connectionId: bytes, sequence: int, data: bytes, flags: int)

  const FLAG_DATA := 1

  predicate Fits(p: TCPPacket) {
    InU8(|p.connectionId|) && InU32(p.sequence) && InU8(p.flags) && InU32(|p.data|)
  }

  function Numbers(p: TCPPacket): bytes
    requires Fits(p)
  {
    PutU32(p.sequence) + [p.flags as byte] + PutU32(|p.data|)
  }

  function Header(p: TCPPacket): bytes
    requires Fits(p)
  {
    [|p.connectionId| as byte] + p.connectionId + Numbers(p)
  }

  /** None is the exception of a field that does not fit its place. */
  method Encode(p: TCPPacket) returns (r: Option<bytes>)
    ensures r == if Fits(p) then Some(Header(p) + p.data) else None
  {
    if !InU8(|p.connectionId|) {
      return None;
    }
    var header: bytes := [|p.connectionId| as byte];
    header := header + p.connectionId;
    if !InU32(p.sequence) || !InU8(p.flags) || !InU32(|p.data|) {
      return None;
    }
    header := header + (PutU32(p.sequence) + [p.flags as byte] + PutU32(|p.data|));
    r := Some(header + p.data);
  }

  /**
   * None is the exception of a header that is not all there, or whose id is not text; a payload that is not all
   * there is taken as it is.
   */
  function Decoded(data: bytes): Option<TCPPacket> {
    if data == [] then None
    else
      var at := 1 + data[0] as int;
      var numbers := Slice(data, at, at + 9);
      if !IsText(Slice(data, 1, at)) || |numbers| != 9 then None
      else
        Some(TCPPacket(Slice(data, 1, at), GetU32(numbers[..4]),
                       Slice(data, at + 9, at + 9 + GetU32(numbers[5..])), numbers[4] as int))
  }

  method Decode(data: bytes) returns (r: Option<TCPPacket>)
    ensures r == Decoded(data)
  {
    if data == [] {
      return None;
    }
    var offset := 0;
    var connLen := data[offset] as int;
    offset := offset + 1;
    var connId := Slice(data, offset, offset + connLen);
    if !IsText(connId) {
      return None;
    }
    offset := offset + connLen;
    var numbers := Slice(data, offset, offset + 9);
    if |numbers| != 9 {
      return None;
    }
    var sequence, flags, dataLen := GetU32(numbers[..4]), numbers[4] as int, GetU32(numbers[5..]);
    offset := offset + 9;
    var payload := Slice(data, offset, offset + dataLen);
    r := Some(TCPPacket(connId, sequence, payload, flags));
  }

  lemma NumbersBack(p: TCPPacket)
    requires Fits(p)
    ensures |Numbers(p)| == 9 && GetU32(Numbers(p)[..4]) == p.sequence
    ensures Numbers(p)[4] as int == p.flags && GetU32(Numbers(p)[5..]) == |p.data|
  {
    U32RoundTrip(p.sequence);
    U32RoundTrip(|p.data|);
    assert Numbers(p)[..4] == PutU32(p.sequence) && Numbers(p)[5..] == PutU32(|p.data|);
  }

  /** Whatever of the payload follows a whole header comes back, up to the length the header gives. */
  lemma DecodeAfterHeader(p: TCPPacket, rest: bytes)
    requires Fits(p)
    ensures Decoded(Header(p) + rest) ==
            if IsText(p.connectionId) then Some(p.(data := Slice(rest, 0, |p.data|))) else None
  {
    var data, at := Header(p) + rest, 1 + |p.connectionId|;
    NumbersBack(p);
    HeaderParts(p, rest);
    assert Slice(data, 1, at) == data[1..at] && Slice(data, at, at + 9) == data[at..at + 9];
  }

  lemma HeaderParts(p: TCPPacket, rest: bytes)
    requires Fits(p)
    ensures var data, at := Header(p) + rest, 1 + |p.connectionId|;
            && |data| == at + 9 + |rest| && data[0] as int == |p.connectionId| && data[1..at] == p.connectionId
            && data[at..at + 9] == Numbers(p) && Slice(data, at + 9, at + 9 + |p.data|) == Slice(rest, 0, |p.data|)
  {
    var data, at := Header(p) + rest, 1 + |p.connectionId|;
    assert data == [|p.connectionId| as byte] + p.connectionId + Numbers(p) + rest;
    assert data[at + 9..] == rest;
  }

  /** Which packets have an encoding, and where each field of it stands, numbers in network order. */
  lemma Layout(p: TCPPacket)
    ensures Fits(p) <==>
            && |p.connectionId| <= 255 && 0 <= p.sequence < 0x1_0000_0000
            && 0 <= p.flags <= 255 && |p.data| < 0x1_0000_0000
    ensures Fits(p) ==>
              var w, at := Header(p) + p.data, 1 + |p.connectionId|;
              && |w| == at + 9 + |p.data| && w[0] as int == |p.connectionId| && w[1..at] == p.connectionId
              && BigEndian(w[at..at + 4]) == p.sequence && w[at + 4] as int == p.flags
              && BigEndian(w[at + 5..at + 9]) == |p.data| && w[at + 9..] == p.data
  {
    if Fits(p) {
      var w, at := Header(p) + p.data, 1 + |p.connectionId|;
      PutIsBigEndian(p.sequence);
      PutIsBigEndian(|p.data|);
      assert w == [|p.connectionId| as byte] + p.connectionId + Numbers(p) + p.data;
      assert w[1..at] == p.connectionId && w[at..at + 4] == PutU32(p.sequence);
      assert w[at + 5..at + 9] == PutU32(|p.data|);
    }
  }

  /**
   * Any input decodes exactly if its header is all there with an id that is text: to the fields at their places, and
   * as much of the announced payload as there is.
   */
  lemma DecodesExactly(data: bytes, p: TCPPacket)
    ensures Decoded(data) == Some(p) <==>
            && data != []
            && var at := 1 + data[0] as int;
               && at + 9 <= |data| && IsText(data[1..at]) && p.connectionId == data[1..at]
               && p.sequence == BigEndian(data[at..at + 4]) && p.flags == data[at + 4] as int
               && p.data <= data[at + 9..]
               && var size := BigEndian(data[at + 5..at + 9]);
                  |p.data| == if at + 9 + size <= |data| then size else |data| - at - 9
  {
    if data != [] && 10 + data[0] as int <= |data| {
      var at := 1 + data[0] as int;
      var numbers := Slice(data, at, at + 9);
      assert numbers == data[at..at + 9] && Slice(data, 1, at) == data[1..at];
      assert numbers[..4] == data[at..at + 4] && numbers[5..] == data[at + 5..at + 9];
      GetIsBigEndian(numbers[..4]);
      GetIsBigEndian(numbers[5..]);
      PayloadThere(data, at + 9, GetU32(numbers[5..]), p.data);
    }
  }

  lemma PayloadThere(data: bytes, at: nat, size: nat, payload: bytes)
    requires at <= |data|
    ensures Slice(data, at, at + size) == payload <==>
            payload <= data[at..] && |payload| == if at + size <= |data| then size else |data| - at
  {
    var there := Slice(data, at, at + size);
    assert there == data[at..][..|there|];
  }

  /** Decoding undoes encoding, whatever follows on the wire. */
  lemma PacketRoundTrip(p: TCPPacket, tail: bytes)
    requires Fits(p) && IsText(p.connectionId)
    ensures Decoded(Header(p) + p.data + tail) == Some(p)
  {
    assert Header(p) + p.data + tail == Header(p) + (p.data + tail);
    DecodeAfterHeader(p, p.data + tail);
  }

  /** A packet cut short inside its header raises; cut inside its payload it passes for a shorter packet. */
  lemma CutExactly(p: TCPPacket, k: nat)
    requires Fits(p) && IsText(p.connectionId) && k < |Header(p) + p.data|
    ensures Decoded((Header(p) + p.data)[..k]) ==
            if k < |Header(p)| then None else Some(p.(data := p.data[..k - |Header(p)|]))
  {
    var whole := Header(p) + p.data;
    if k < |Header(p)| {
      assert k > 0 ==> whole[..k][0] == |p.connectionId| as byte;
    } else {
      assert whole[..k] == Header(p) + p.data[..k - |Header(p)|];
      var rest := p.data[..k - |Header(p)|];
      assert Slice(rest, 0, |p.data|) == rest;
      DecodeAfterHeader(p, rest);
    }
  }

  // ---------------------------------------------------------------- accounting

  /** A connection's counters and the packets the connector accepted for it. */
  datatype Account = Account(next: nat, bytesSent: nat, accepted: seq<TCPPacket>)

  const OPENED := Account(0, 0, [])

  predicate Goes(a: Account, id: bytes, data: bytes, accept: bool) {
    accept && Fits(TCPPacket(id, a.next, data, FLAG_DATA))
  }

  function Forwarded(a: Account, id: bytes, data: bytes, accept: bool): Account {
    if Goes(a, id, data, accept) then
      Account(a.next + 1, a.bytesSent + |data|, a.accepted + [TCPPacket(id, a.next, data, FLAG_DATA)])
    else a
  }

  class TCPConnection {
    const connectionId: bytes
    var sendSequence: nat
    var bytesSent: nat
    ghost var accepted: seq<TCPPacket>

    constructor (connectionId: bytes)
      ensures this.connectionId == connectionId && View() == OPENED
    {
      this.connectionId := connectionId;
      sendSequence, bytesSent, accepted := 0, 0, [];
    }

    ghost function View(): Account
      reads this
    {
      Account(sendSequence, bytesSent, accepted)
    }
  }

  class TCPBridge {
    var connections: map<bytes, TCPConnection>

    constructor ()
      ensures connections == map[]
    {
      connections := map[];
    }

    /**
     * `accept` is what the connector would answer; an unknown connection or a packet that cannot be encoded is
     * refused.
     */
    method ForwardToP2P(id: bytes, data: bytes, accept: bool) returns (success: bool)
      modifies if id in connections then {connections[id]} else {}
      ensures success <==> id in connections && Goes(old(connections[id].View()), id, data, accept)
      ensures id in connections ==> connections[id].View() == Forwarded(old(connections[id].View()), id, data, accept)
    {
      if id !in connections {
        return false;
      }
      var conn := connections[id];
      var packet := TCPPacket(id, conn.sendSequence, data, FLAG_DATA);
      var encoded := Encode(packet);
      if encoded.None? {
        return false;
      }
      success := accept;
      if success {
        conn.sendSequence := conn.sendSequence + 1;
        conn.bytesSent := conn.bytesSent + |data|;
        conn.accepted := conn.accepted + [packet];
      }
    }
  }

  datatype Chunk = Chunk(data: bytes, accept: bool)

  function ForwardAll(id: bytes, cs: seq<Chunk>): Account {
    if cs == [] then OPENED
    else Forwarded(ForwardAll(id, cs[..|cs| - 1]), id, cs[|cs| - 1].data, cs[|cs| - 1].accept)
  }

  function Payload(ps: seq<TCPPacket>): bytes {
    if ps == [] then [] else Payload(ps[..|ps| - 1]) + ps[|ps| - 1].data
  }

  /** The chunks the connector takes; one of 2^32 bytes or more cannot be sent. */
  function Taken(cs: seq<Chunk>): (chunks: seq<bytes>)
    ensures |chunks| <= |cs|
  {
    if cs == [] then []
    else
      var c := cs[|cs| - 1];
      Taken(cs[..|cs| - 1]) + if c.accept && InU32(|c.data|) then [c.data] else []
  }

  function Joined(chunks: seq<bytes>): bytes {
    if chunks == [] then [] else Joined(chunks[..|chunks| - 1]) + chunks[|chunks| - 1]
  }

  /** How many of so many taken chunks find an id that fits one byte of length and a number that fits four bytes. */
  function Numbered(id: bytes, n: nat): nat {
    if !InU8(|id|) then 0 else if n < 0x1_0000_0000 then n else 0x1_0000_0000
  }

  /**
   * The accepted packets are numbered 0, 1, 2, ..., all can be encoded, and their payloads add up to the byte
   * counter.
   */
  lemma {:induction false} AccountOverRuns(id: bytes, cs: seq<Chunk>)
    ensures var a := ForwardAll(id, cs);
            && |a.accepted| == a.next <= 0x1_0000_0000
            && (forall i :: 0 <= i < a.next ==>
                  var p := a.accepted[i];
                  p.sequence == i && p.connectionId == id && p.flags == 0x01 && |p.data| < 0x1_0000_0000 && Fits(p))
            && |Payload(a.accepted)| == a.bytesSent
  {
    if cs != [] {
      AccountOverRuns(id, cs[..|cs| - 1]);
      var a, b := ForwardAll(id, cs[..|cs| - 1]), ForwardAll(id, cs);
      if a != b {
        assert b.accepted[..|b.accepted| - 1] == a.accepted;
      }
    }
  }

  /**
   * What goes out is the taken chunks in order, never more than 2^32 of them, and none under an id that does not
   * fit.
   */
  lemma {:induction false} StreamExactly(id: bytes, cs: seq<Chunk>)
    ensures var a := ForwardAll(id, cs);
            a.next == Numbered(id, |Taken(cs)|) && Payload(a.accepted) == Joined(Taken(cs)[..a.next])
  {
    if cs != [] {
      var init, last := cs[..|cs| - 1], cs[|cs| - 1];
      StreamExactly(id, init);
      var a := ForwardAll(id, init);
      AccountOverRuns(id, init);
      if last.accept && InU32(|last.data|) {
        assert Taken(cs) == Taken(init) + [last.data];
        NextChunk(a, id, last, Taken(init));
      } else {
        assert Taken(cs) == Taken(init);
      }
    }
  }

  lemma NextChunk(a: Account, id: bytes, c: Chunk, before: seq<bytes>)
    requires a.next == |a.accepted| == Numbered(id, |before|) && Payload(a.accepted) == Joined(before[..a.next])
    requires c.accept && InU32(|c.data|)
    ensures var b := Forwarded(a, id, c.data, c.accept);
            b.next == Numbered(id, |before| + 1) && Payload(b.accepted) == Joined((before + [c.data])[..b.next])
  {
    var b := Forwarded(a, id, c.data, c.accept);
    if Goes(a, id, c.data, c.accept) {
      assert a.next == |before| && b.accepted[..a.next] == a.accepted;
      assert (before + [c.data])[..b.next] == before + [c.data] && before[..a.next] == before;
      assert (before + [c.data])[..|before|] == before;
    } else {
      assert (before + [c.data])[..a.next] == before[..a.next];
    }
  }

  /** Every taken chunk goes out exactly if there is none, or if the id fits and there are at most 2^32. */
  lemma NothingLostExactly(id: bytes, cs: seq<Chunk>)
    ensures var a := ForwardAll(id, cs);
            && (a.next == |Taken(cs)| <==> Taken(cs) == [] || (InU8(|id|) && |Taken(cs)| <= 0x1_0000_0000))
            && (a.next == |Taken(cs)| ==> Payload(a.accepted) == Joined(Taken(cs)))
  {
    StreamExactly(id, cs);
    assert Taken(cs)[..|Taken(cs)|] == Taken(cs);
  }
}
