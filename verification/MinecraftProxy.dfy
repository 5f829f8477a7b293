/**
 * The Minecraft proxy: read a frame, parse it, run the handlers, re-encode what they kept.
 * The two forward loops of the source are one loop with a direction.
 */
module MinecraftProxy {
  import opened Bytes
  import opened VarInt

  datatype Packet = Packet(packetId: nat, data: bytes)

  datatype Direction = ClientToServer | ServerToClient

  /** A handler returns a packet, returns None, or raises; an exception is logged, with the packet as it was left. */
  datatype Reply = Keep(packet: Packet) | Drop | Raise(left: Packet)

  type Handler = (Direction, Packet) -> Reply

  /** Why a forward loop ended: `IncompleteReadError`, or any other exception. */
  datatype Stop = EndOfStream | Failed

  datatype Parsed = Parsed(packets: seq<Packet>, used: nat, stop: Stop)

  function Body(p: Packet): bytes {
    Encode(p.packetId) + p.data
  }

  function EncodePacket(p: Packet): bytes {
    Encode(|Body(p)|) + Body(p)
  }

  function ParsePacket(body: bytes): Option<Packet> {
    match Decode(body, 0)
    case Ok(id, next) => Some(Packet(id, Tail(body, next)))
    case error => None
  }

  /** The packet the handlers leave, taken left to right. */
  function RunHandlers(handlers: seq<Handler>, d: Direction, p: Packet): Option<Packet> {
    if handlers == [] then Some(p)
    else match handlers[0](d, p)
      case Keep(q) => RunHandlers(handlers[1..], d, q)
      case Drop => None
      case Raise(q) => RunHandlers(handlers[1..], d, q)
  }

  /** What is written for one packet. */
  function Relay(handlers: seq<Handler>, d: Direction, p: Packet): bytes {
    match RunHandlers(handlers, d, p) case None => [] case Some(q) => EncodePacket(q)
  }

  function RelayAll(handlers: seq<Handler>, d: Direction, ps: seq<Packet>): bytes {
    if ps == [] then [] else Relay(handlers, d, ps[0]) + RelayAll(handlers, d, ps[1..])
  }

  /** The frames a loop takes from the stream at pos: a one-byte length, then that many bytes. */
  function Frames(input: bytes, pos: nat): Parsed
    requires pos <= |input|
    decreases |input| - pos
  {
    if pos == |input| then Parsed([], pos, EndOfStream)
    else if input[pos] >= 128 then Parsed([], pos, Failed)
    else
      var end := pos + 1 + input[pos] as nat;
      if end > |input| then Parsed([], pos, EndOfStream)
      else match ParsePacket(input[pos + 1..end])
        case None => Parsed([], pos, Failed)
        case Some(p) =>
          Prepend([p], Frames(input, end))
  }

  function Prepend(ps: seq<Packet>, rest: Parsed): Parsed {
    rest.(packets := ps + rest.packets)
  }

  lemma PrependTwice(ps: seq<Packet>, qs: seq<Packet>, rest: Parsed)
    ensures Prepend(ps, Prepend(qs, rest)) == Prepend(ps + qs, rest)
  {
    assert ps + (qs + rest.packets) == ps + qs + rest.packets;
  }

  method HandlePacket(handlers: seq<Handler>, d: Direction, packet: Packet) returns (r: Option<Packet>)
    ensures r == RunHandlers(handlers, d, packet)
  {
    var current := packet;
    for i := 0 to |handlers|
      invariant RunHandlers(handlers[i..], d, current) == RunHandlers(handlers, d, packet)
    {
      var reply := handlers[i](d, current);
      assert handlers[i..][1..] == handlers[i + 1..];
      match reply
      case Drop => return None;
      case Keep(q) => current := q;
      case Raise(q) => current := q;
    }
    r := Some(current);
  }

  /** The reads of one turn: the length byte, the body, and the packet in it; None when the loop ends here. */
  method ReadFrame(input: bytes, pos: nat) returns (packet: Option<Packet>, end: nat, stop: Stop)
    requires pos <= |input|
    ensures packet.Some? ==> pos < end <= |input| && Frames(input, pos) == Prepend([packet.value], Frames(input, end))
    ensures packet.None? ==> Frames(input, pos) == Parsed([], pos, stop)
  {
    packet, end, stop := None, pos, EndOfStream;
    if pos == |input| {
      return;
    }
    var length := ReadLength(input[pos]);
    if length.None? {
      stop := Failed;
      return;
    }
    end := pos + 1 + length.value;
    if end > |input| {
      return;
    }
    packet := ParsePacket(input[pos + 1..end]);
    FrameStep(input, pos, input[pos + 1..end]);
    stop := Failed;
  }

  /** One forward loop over the whole of a stream; `used` is where the last complete frame ended. */
  method Forward(input: bytes, handlers: seq<Handler>, d: Direction) returns (output: bytes, used: nat, stop: Stop)
    ensures output == RelayAll(handlers, d, Frames(input, 0).packets)
    ensures used == Frames(input, 0).used && stop == Frames(input, 0).stop
  {
    output, used := [], 0;
    ghost var done: seq<Packet> := [];
    while true
      invariant used <= |input|
      invariant Frames(input, 0) == Prepend(done, Frames(input, used))
      invariant output == RelayAll(handlers, d, done)
      decreases |input| - used
    {
      var packet, end, ending := ReadFrame(input, used);
      if packet.None? {
        stop := ending;
        PrependNone(done, used, stop);
        break;
      }
      PrependTwice(done, [packet.value], Frames(input, end));
      RelayAllAppend(handlers, d, done, packet.value);
      var modified := HandlePacket(handlers, d, packet.value);
      if modified.Some? {
        output := output + EncodePacket(modified.value);
      }
      done := done + [packet.value];
      used := end;
    }
  }

  lemma PrependNone(ps: seq<Packet>, used: nat, stop: Stop)
    ensures Prepend(ps, Parsed([], used, stop)) == Parsed(ps, used, stop)
  {
    assert ps + [] == ps;
  }

  lemma LengthByte(b: byte)
    ensures Decode([b], 0) == if b < 128 then Ok(b as nat, 1) else Incomplete
  {
    assert DecodeFrom([b], 1, 1) == Incomplete;
  }

  /** The length is decoded from the one byte read; a continuation bit leaves the VarInt incomplete. */
  method ReadLength(b: byte) returns (r: Option<nat>)
    ensures r == if b < 128 then Some(b as nat) else None
  {
    var length := DecodeVarint([b], 0);
    LengthByte(b);
    r := if length.Ok? then Some(length.value) else None;
  }

  lemma {:induction false} RelayAllAppend(handlers: seq<Handler>, d: Direction, ps: seq<Packet>, p: Packet)
    ensures RelayAll(handlers, d, ps + [p]) == RelayAll(handlers, d, ps) + Relay(handlers, d, p)
  {
    if ps != [] {
      assert (ps + [p])[1..] == ps[1..] + [p];
      RelayAllAppend(handlers, d, ps[1..], p);
    }
  }

  // ---------------------------------------------------------------- handlers

  /** The packet handler i is given, if the chain gets that far. */
  function Offered(handlers: seq<Handler>, d: Direction, p: Packet, i: nat): Option<Packet>
    requires i <= |handlers|
  {
    RunHandlers(handlers[..i], d, p)
  }

  lemma {:induction false} HandlersCompose(a: seq<Handler>, b: seq<Handler>, d: Direction, p: Packet)
    ensures RunHandlers(a + b, d, p) ==
            match RunHandlers(a, d, p) case None => None case Some(q) => RunHandlers(b, d, q)
    decreases a
  {
    if a == [] {
      assert a + b == b;
    } else {
      assert (a + b)[1..] == a[1..] + b;
      match a[0](d, p)
      case Keep(q) => HandlersCompose(a[1..], b, d, q);
      case Drop =>
      case Raise(q) => HandlersCompose(a[1..], b, d, q);
    }
  }

  /** A packet is dropped exactly when some handler returned None on the packet it was offered. */
  lemma {:induction false} DroppedExactly(handlers: seq<Handler>, d: Direction, p: Packet)
    ensures RunHandlers(handlers, d, p).None? <==>
            exists i :: 0 <= i < |handlers| && Offered(handlers, d, p, i).Some? &&
                        handlers[i](d, Offered(handlers, d, p, i).value).Drop?
    decreases |handlers|
  {
    var n := |handlers|;
    if n > 0 {
      var init, last := handlers[..n - 1], handlers[n - 1..];
      DroppedExactly(init, d, p);
      HandlersCompose(init, last, d, p);
      assert init + last == handlers;
      assert forall i :: 0 <= i < n ==> init[..i] == handlers[..i];
      assert forall i :: 0 <= i < n ==> Offered(handlers, d, p, i) == Offered(init, d, p, i);
      if RunHandlers(init, d, p).Some? {
        OneHandler(last[0], d, RunHandlers(init, d, p).value);
        assert last == [last[0]] && Offered(handlers, d, p, n - 1) == RunHandlers(init, d, p);
      }
    }
  }

  lemma OneHandler(h: Handler, d: Direction, p: Packet)
    ensures RunHandlers([h], d, p) == match h(d, p) case Keep(q) => Some(q) case Drop => None case Raise(q) => Some(q)
  {
    assert [h][1..] == [];
  }

  // ---------------------------------------------------------------- streams

  /** A frame body the proxy accepts: 1 to 127 bytes that begin with a packet id. */
  type frame = b: bytes | 1 <= |b| <= 127 && ParsePacket(b).Some? witness [0]

  function PacketOf(body: frame): Packet {
    ParsePacket(body).value
  }

  function Framed(body: frame): bytes {
    [|body| as byte] + body
  }

  function Stream(bodies: seq<frame>): bytes {
    if bodies == [] then [] else Framed(bodies[0]) + Stream(bodies[1..])
  }

  function PacketsOf(bodies: seq<frame>): seq<Packet> {
    if bodies == [] then [] else [PacketOf(bodies[0])] + PacketsOf(bodies[1..])
  }

  /** The packet id is written in its shortest form. */
  predicate Minimal(body: frame) {
    Encode(PacketOf(body).packetId) <= body
  }

  lemma TakeFrame(input: bytes, pos: nat, body: bytes, rest: bytes)
    requires pos <= |input| && |body| <= 127 && input[pos..] == [|body| as byte] + body + rest
    ensures pos + 1 + |body| <= |input| && input[pos] as nat == |body|
    ensures input[pos + 1..pos + 1 + |body|] == body && input[pos + 1 + |body|..] == rest
  {
    var tail := input[pos..];
    assert input[pos] == tail[0];
    assert input[pos + 1..pos + 1 + |body|] == tail[1..1 + |body|] == body;
    assert input[pos + 1 + |body|..] == tail[1 + |body|..] == rest;
  }

  /** One turn of the loop on a frame with a one-byte length. */
  lemma FrameStep(input: bytes, pos: nat, body: bytes)
    requires |body| <= 127 && pos + 1 + |body| <= |input|
    requires input[pos] as nat == |body| && input[pos + 1..pos + 1 + |body|] == body
    ensures Frames(input, pos) ==
            match ParsePacket(body)
            case None => Parsed([], pos, Failed)
            case Some(p) => Prepend([p], Frames(input, pos + 1 + |body|))
  {
  }

  /** The loop reads back the frames at the front of a stream, whatever stands behind them. */
  lemma {:induction false} FramesBefore(input: bytes, pos: nat, bodies: seq<frame>, tail: bytes)
    requires pos <= |input| && input[pos..] == Stream(bodies) + tail
    ensures Frames(input, pos) == Prepend(PacketsOf(bodies), Frames(input, |input| - |tail|))
    decreases |bodies|
  {
    if bodies == [] {
      assert [] + Frames(input, pos).packets == Frames(input, pos).packets;
    } else {
      var b, rest := bodies[0], bodies[1..];
      assert Stream(bodies) + tail == [|b| as byte] + b + (Stream(rest) + tail);
      TakeFrame(input, pos, b, Stream(rest) + tail);
      FrameStep(input, pos, b);
      FramesBefore(input, pos + 1 + |b|, rest, tail);
      PrependTwice([PacketOf(b)], PacketsOf(rest), Frames(input, |input| - |tail|));
    }
  }

  /** The loop reads back exactly the frames of a stream and uses every byte. */
  lemma FramesOfStream(bodies: seq<frame>)
    ensures Frames(Stream(bodies), 0) == Parsed(PacketsOf(bodies), |Stream(bodies)|, EndOfStream)
  {
    assert Stream(bodies) + [] == Stream(bodies);
    FramesBefore(Stream(bodies), 0, bodies, []);
    PrependNone(PacketsOf(bodies), |Stream(bodies)|, EndOfStream);
  }

  /** A stream that ends after n bytes, k frames being whole by then: those are read and nothing of the next. */
  lemma CutExactly(bodies: seq<frame>, n: nat, k: nat)
    requires n <= |Stream(bodies)| && k <= |bodies| && |Stream(bodies[..k])| <= n
    requires k < |bodies| ==> n < |Stream(bodies[..k + 1])|
    ensures Frames(Stream(bodies)[..n], 0) == Parsed(PacketsOf(bodies[..k]), |Stream(bodies[..k])|, EndOfStream)
  {
    var whole := |Stream(bodies[..k])|;
    var input, part := Stream(bodies)[..n], Stream(bodies)[whole..n];
    StreamSplit(bodies, k);
    assert input == Stream(bodies[..k]) + part && input[whole..] == part;
    FramesBefore(input, 0, bodies[..k], part);
    PrependNone(PacketsOf(bodies[..k]), whole, EndOfStream);
    if k < |bodies| && part != [] {
      StreamSplit(bodies[..k + 1], k);
      assert bodies[..k + 1][..k] == bodies[..k] && bodies[..k + 1][k..] == [bodies[k]];
      assert Stream([bodies[k]]) == Framed(bodies[k]) + [];
      assert input[whole] == part[0] == Stream(bodies[k..])[0] == |bodies[k]| as byte;
    }
  }

  lemma {:induction false} StreamSplit(bodies: seq<frame>, k: nat)
    requires k <= |bodies|
    ensures Stream(bodies) == Stream(bodies[..k]) + Stream(bodies[k..])
    decreases k
  {
    if k > 0 {
      StreamSplit(bodies[1..], k - 1);
      assert bodies[..k][1..] == bodies[1..][..k - 1] && bodies[k..] == bodies[1..][k - 1..];
    }
  }

  /**
   * A length of two bytes or more, a length of 0 and a body without a whole packet id end the loop, nothing being
   * read.
   */
  lemma BadFrames(b: byte, body: bytes, rest: bytes)
    ensures b >= 128 ==> Frames([b] + rest, 0) == Parsed([], 0, Failed)
    ensures Frames([0] + rest, 0) == Parsed([], 0, Failed)
    ensures |body| <= 127 && (forall i :: 0 <= i < |body| ==> body[i] >= 128) ==>
              Frames([|body| as byte] + body + rest, 0) == Parsed([], 0, Failed)
  {
    NoId([]);
    assert ([0] + rest)[1..1] == [];
    if |body| <= 127 && forall i :: 0 <= i < |body| ==> body[i] >= 128 {
      NoId(body);
      assert ([|body| as byte] + body + rest)[1..1 + |body|] == body;
    }
  }

  lemma NoId(body: bytes)
    requires forall i :: 0 <= i < |body| ==> body[i] >= 128
    ensures ParsePacket(body) == None
  {
    DecodesExactly(body, 0, 0, 0);
  }

  /** Re-encoding never lengthens a frame, and keeps its length only by keeping its bytes. */
  lemma ReencodeShorter(body: frame)
    ensures var out := EncodePacket(PacketOf(body));
            |out| <= |Framed(body)| && (|out| == |Framed(body)| ==> Minimal(body)) &&
            (Minimal(body) ==> out == Framed(body))
  {
    var p := PacketOf(body);
    DecodedNotShorter(body, 0);
    var next := Decode(body, 0).next;
    assert body == body[0..next] + body[next..];
    if Minimal(body) {
      EncodeForm(p.packetId);
      DecodesExactly(body, 0, p.packetId, next);
      SameEnd(Encode(p.packetId), body[0..next], body);
    }
  }

  lemma SameEnd(a: bytes, b: bytes, whole: bytes)
    requires Terminated(a) && Terminated(b) && a <= whole && b <= whole
    ensures a == b
  {
    var n := if |a| < |b| then |a| else |b|;
    assert a[n - 1] == whole[n - 1] == b[n - 1];
    assert a == whole[..|a|] && b == whole[..|b|];
  }

  lemma {:induction false} ReencodeAll(handlers: seq<Handler>, d: Direction, bodies: seq<frame>)
    requires forall p :: RunHandlers(handlers, d, p) == Some(p)
    ensures var out := RelayAll(handlers, d, PacketsOf(bodies));
            |out| <= |Stream(bodies)| &&
            (|out| == |Stream(bodies)| ==> forall b: frame :: b in bodies ==> Minimal(b)) &&
            ((forall b: frame :: b in bodies ==> Minimal(b)) ==> out == Stream(bodies))
  {
    if bodies != [] {
      var b, rest := bodies[0], bodies[1..];
      ReencodeShorter(b);
      ReencodeAll(handlers, d, rest);
      assert PacketsOf(bodies)[1..] == PacketsOf(rest);
      assert Relay(handlers, d, PacketOf(b)) == EncodePacket(PacketOf(b));
      assert bodies == [b] + rest;
    }
  }

  /**
   * With handlers that leave every packet alone, the proxy is transparent byte for byte exactly on the
   * streams whose packet ids are all minimally encoded.
   */
  lemma TransparentExactly(handlers: seq<Handler>, d: Direction, bodies: seq<frame>)
    requires forall p :: RunHandlers(handlers, d, p) == Some(p)
    ensures RelayAll(handlers, d, Frames(Stream(bodies), 0).packets) == Stream(bodies) <==>
            forall b: frame :: b in bodies ==> Minimal(b)
  {
    FramesOfStream(bodies);
    ReencodeAll(handlers, d, bodies);
  }

  lemma {:induction false} ReturningHandlersKeep(handlers: seq<Handler>, d: Direction, p: Packet)
    requires forall i, q :: 0 <= i < |handlers| ==> handlers[i](d, q) == Keep(q) || handlers[i](d, q) == Raise(q)
    ensures RunHandlers(handlers, d, p) == Some(p)
  {
    if handlers != [] {
      assert handlers[0](d, p) == Keep(p) || handlers[0](d, p) == Raise(p);
      ReturningHandlersKeep(handlers[1..], d, p);
    }
  }

  // ---------------------------------------------------------------- proxies in a row

  /** A packet the next proxy can read: its body fits a one-byte length and its id 35 bits. */
  predicate Readable(p: Packet) {
    |Body(p)| <= 127 && p.packetId < 0x8_0000_0000
  }

  function Handled(handlers: seq<Handler>, d: Direction, ps: seq<Packet>): seq<Packet> {
    if ps == [] then []
    else match RunHandlers(handlers, d, ps[0])
      case None => Handled(handlers, d, ps[1..])
      case Some(q) => [q] + Handled(handlers, d, ps[1..])
  }

  function LeadingReadable(ps: seq<Packet>): (k: nat)
    ensures k <= |ps| && (k < |ps| ==> !Readable(ps[k])) && forall i :: 0 <= i < k ==> Readable(ps[i])
  {
    if ps == [] || !Readable(ps[0]) then 0 else 1 + LeadingReadable(ps[1..])
  }

  function EncodeAll(ps: seq<Packet>): bytes {
    if ps == [] then [] else EncodePacket(ps[0]) + EncodeAll(ps[1..])
  }

  lemma OversizeBody(input: bytes, pos: nat, p: Packet, rest: bytes)
    requires pos <= |input| && input[pos..] == EncodePacket(p) + rest && |Body(p)| >= 128
    ensures Frames(input, pos) == Parsed([], pos, Failed)
  {
    var length := Encode(|Body(p)|);
    assert input[pos] == input[pos..][0] == length[0];
  }

  lemma ShortBody(input: bytes, pos: nat, p: Packet, rest: bytes)
    requires pos <= |input| && input[pos..] == EncodePacket(p) + rest && |Body(p)| < 128
    ensures var end := pos + |EncodePacket(p)|;
            end <= |input| && input[end..] == rest &&
            Frames(input, pos) == if Readable(p) then Prepend([p], Frames(input, end)) else Parsed([], pos, Failed)
  {
    ParseBody(p);
    TakeFrame(input, pos, Body(p), rest);
    FrameStep(input, pos, Body(p));
  }

  /** `run` is Frames, under a name that proofs need not look behind. */
  ghost predicate IsFrames(run: nat -> Parsed, input: bytes) {
    forall q: nat {:trigger Frames(input, q)} :: q <= |input| ==> run(q) == Frames(input, q)
  }

  lemma NextPacket(input: bytes, pos: nat, p: Packet, rest: bytes, run: nat -> Parsed)
    requires IsFrames(run, input)
    requires pos <= |input| && input[pos..] == EncodePacket(p) + rest
    ensures Readable(p) ==> var end := pos + |EncodePacket(p)|;
                            end <= |input| && input[end..] == rest && run(pos) == Prepend([p], run(end))
    ensures !Readable(p) ==> run(pos) == Parsed([], pos, Failed)
  {
    if |Body(p)| < 128 {
      ShortBody(input, pos, p, rest);
    } else {
      OversizeBody(input, pos, p, rest);
    }
  }

  lemma NoPacket(input: bytes, run: nat -> Parsed)
    requires IsFrames(run, input)
    ensures run(|input|) == Parsed([], |input|, EndOfStream)
  {
    assert run(|input|) == Frames(input, |input|);
  }

  lemma TakeCons(ps: seq<Packet>, k: nat)
    requires k < |ps|
    ensures ps[..k + 1] == [ps[0]] + ps[1..][..k]
    ensures |EncodeAll(ps[..k + 1])| == |EncodePacket(ps[0])| + |EncodeAll(ps[1..][..k])|
  {
    assert ps[..k + 1][1..] == ps[1..][..k];
  }

  /** `run` is Frames, which the induction need not look into. */
  lemma {:induction false} RunOfEncodings(input: bytes, pos: nat, ps: seq<Packet>, run: nat -> Parsed)
    requires IsFrames(run, input)
    requires pos <= |input| && input[pos..] == EncodeAll(ps)
    ensures var k := LeadingReadable(ps);
            run(pos) == Parsed(ps[..k], pos + |EncodeAll(ps[..k])|, if k == |ps| then EndOfStream else Failed)
    decreases |ps|
  {
    if ps == [] {
      NoPacket(input, run);
    } else {
      NextPacket(input, pos, ps[0], EncodeAll(ps[1..]), run);
      if Readable(ps[0]) {
        RunOfEncodings(input, pos + |EncodePacket(ps[0])|, ps[1..], run);
        TakeCons(ps, LeadingReadable(ps[1..]));
      }
    }
  }

  /** What a proxy reads from the encodings of any packets: all of them up to the first unreadable one. */
  lemma FramesOfEncodings(ps: seq<Packet>)
    ensures var k := LeadingReadable(ps);
            Frames(EncodeAll(ps), 0) == Parsed(ps[..k], |EncodeAll(ps[..k])|, if k == |ps| then EndOfStream else Failed)
  {
    var input := EncodeAll(ps);
    RunOfEncodings(input, 0, ps, (q: nat) => if q <= |input| then Frames(input, q) else Parsed([], q, EndOfStream));
  }

  lemma ParseBody(p: Packet)
    ensures |Body(p)| > 0
    ensures ParsePacket(Body(p)) == if p.packetId < 0x8_0000_0000 then Some(p) else None
  {
    RoundTripExactly(p.packetId, [], p.data);
    assert [] + Encode(p.packetId) + p.data == Body(p);
    assert Body(p)[|Encode(p.packetId)|..] == p.data;
  }

  lemma {:induction false} RelayIsEncodeHandled(handlers: seq<Handler>, d: Direction, ps: seq<Packet>)
    ensures RelayAll(handlers, d, ps) == EncodeAll(Handled(handlers, d, ps))
  {
    if ps != [] {
      RelayIsEncodeHandled(handlers, d, ps[1..]);
    }
  }

  lemma {:induction false} HandledCompose(a: seq<Handler>, b: seq<Handler>, d: Direction, ps: seq<Packet>)
    ensures Handled(b, d, Handled(a, d, ps)) == Handled(a + b, d, ps)
  {
    if ps != [] {
      HandledCompose(a, b, d, ps[1..]);
      HandlersCompose(a, b, d, ps[0]);
    }
  }

  /** Two proxies in a row are one proxy with both handler lists, as long as the second can read the first. */
  lemma ProxiesInARow(a: seq<Handler>, b: seq<Handler>, d: Direction, input: bytes)
    requires forall p :: p in Handled(a, d, Frames(input, 0).packets) ==> Readable(p)
    ensures var first := RelayAll(a, d, Frames(input, 0).packets);
            Frames(first, 0).stop == EndOfStream && Frames(first, 0).used == |first| &&
            RelayAll(b, d, Frames(first, 0).packets) == RelayAll(a + b, d, Frames(input, 0).packets)
  {
    var ps := Frames(input, 0).packets;
    var qs := Handled(a, d, ps);
    RelayIsEncodeHandled(a, d, ps);
    FramesOfEncodings(qs);
    assert qs[..|qs|] == qs;
    HandledCompose(a, b, d, ps);
    RelayIsEncodeHandled(b, d, qs);
    RelayIsEncodeHandled(a + b, d, ps);
  }
}
