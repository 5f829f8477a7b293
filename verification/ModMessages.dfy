/**
 * The remaining payloads between the Java mod and the Python server: handshake and connect request
 * (written by the mod), connect response (written by the server).
 */
module ModMessages {
  import opened Bytes
  import opened ModProtocol
  import opened Utf8

  const PROTOCOL_VERSION: nat := 1

  /** `writeInt`: the two's complement word of a Java int. */
  function JavaIntBytes(v: int): bytes
    requires InInt32(v)
  {
    PutU32(Unsigned(v))
  }

  // ---------------------------------------------------------------- handshake, Java to Python

  /** The fields of a `ModConnection` that a handshake fills. */
  datatype Peer = Peer(protocolVersion: int, modVersion: int, mcVersion: bytes, playerUuid: bytes, playerName: bytes)

  function HandshakePayload(modVersion: int, mcVersion: bytes, uuid: bytes, name: bytes): bytes
    requires InInt32(modVersion)
  {
    (JavaIntBytes(PROTOCOL_VERSION) + JavaIntBytes(modVersion)) +
    (StringBytes(mcVersion) + StringBytes(uuid) + StringBytes(name))
  }

  /** `sendHandshake`: the buffer grows by two ints and three strings. */
  method SendHandshake(modVersion: int, mcVersion: bytes, uuid: bytes, name: bytes) returns (buf: bytes)
    requires InInt32(modVersion)
    ensures buf == HandshakePayload(modVersion, mcVersion, uuid, name)
  {
    buf := JavaIntBytes(PROTOCOL_VERSION);
    buf := buf + JavaIntBytes(modVersion);
    ghost var ints := buf;
    buf := buf + StringBytes(mcVersion);
    buf := buf + StringBytes(uuid);
    buf := buf + StringBytes(name);
    assert buf == ints + (StringBytes(mcVersion) + StringBytes(uuid) + StringBytes(name));
  }

  /** The fields after `_handle_handshake`, and whether it got through; a failure keeps what was read before it. */
  function AfterHandshake(p: Peer, payload: bytes): (Peer, bool) {
    match PyInt(payload, 0) case Raised => (p, false) case Got(protocol, a) =>
    var p1 := p.(protocolVersion := protocol);
    match PyInt(payload, a) case Raised => (p1, false) case Got(modVersion, b) =>
    var p2 := p1.(modVersion := modVersion);
    match PyString(payload, b) case Raised => (p2, false) case Got(mcVersion, c) =>
    var p3 := p2.(mcVersion := mcVersion);
    match PyString(payload, c) case Raised => (p3, false) case Got(uuid, d) =>
    var p4 := p3.(playerUuid := uuid);
    match PyString(payload, d) case Raised => (p4, false) case Got(name, _) =>
    (p4.(playerName := name), true)
  }

  class ModConnection {
    var protocolVersion: int
    var modVersion: int
    var mcVersion: bytes
    var playerUuid: bytes
    var playerName: bytes

    constructor ()
      ensures Fields() == Peer(1, 0, [], [], [])
    {
      protocolVersion, modVersion, mcVersion, playerUuid, playerName := 1, 0, [], [], [];
    }

    ghost function Fields(): Peer
      reads this
    {
      Peer(protocolVersion, modVersion, mcVersion, playerUuid, playerName)
    }
  }

  class ExternalTCPServer {
    var connections: map<bytes, ModConnection>

    constructor ()
      ensures connections == map[]
    {
      connections := map[];
    }

    /**
     * Fills the connection's fields in order, registers it under its player's UUID and answers with the servers
     * the callback gives.
     */
    method HandleHandshake(conn: ModConnection, payload: bytes, servers: seq<Server>)
      returns (ok: bool, answer: Option<bytes>)
      modifies this, conn
      ensures (conn.Fields(), ok) == AfterHandshake(old(conn.Fields()), payload)
      ensures connections == if ok then old(connections)[conn.playerUuid := conn] else old(connections)
      ensures answer == if ok then ServerListFrame(servers) else None
    {
      ok, answer := false, None;
      var protocol := PyInt(payload, 0);
      if protocol.Raised? {
        return;
      }
      conn.protocolVersion := protocol.value;
      var modVersion := PyInt(payload, protocol.next);
      if modVersion.Raised? {
        return;
      }
      conn.modVersion := modVersion.value;
      var mcVersion := PyString(payload, modVersion.next);
      if mcVersion.Raised? {
        return;
      }
      conn.mcVersion := mcVersion.value;
      var uuid := PyString(payload, mcVersion.next);
      if uuid.Raised? {
        return;
      }
      conn.playerUuid := uuid.value;
      var name := PyString(payload, uuid.next);
      if name.Raised? {
        return;
      }
      conn.playerName := name.value;
      connections := connections[conn.playerUuid := conn];
      ok := true;
      answer := SendServerList(servers);
    }
  }

  /** Whatever the connection held, the server ends up with the mod's own values; a negative version wraps. */
  lemma HandshakeRoundTrip(p: Peer, modVersion: int, mcVersion: bytes, uuid: bytes, name: bytes)
    requires InInt32(modVersion)
    requires |mcVersion| < 0x8000_0000 && |uuid| < 0x8000_0000 && |name| < 0x8000_0000
    requires IsText(mcVersion) && IsText(uuid) && IsText(name)
    ensures AfterHandshake(p, HandshakePayload(modVersion, mcVersion, uuid, name)) ==
            (Peer(1, if modVersion >= 0 then modVersion else modVersion + 0x1_0000_0000, mcVersion, uuid, name), true)
  {
    var data := HandshakePayload(modVersion, mcVersion, uuid, name);
    HandshakeInts(data, modVersion, mcVersion, uuid, name);
    var c, d, e := HandshakeStrings(data, mcVersion, uuid, name);
    HandshakeChain(p, data, c, d, e, Peer(1, Unsigned(modVersion), mcVersion, uuid, name));
  }

  lemma HandshakeStrings(data: bytes, mcVersion: bytes, uuid: bytes, name: bytes) returns (c: nat, d: nat, e: nat)
    requires |mcVersion| < 0x8000_0000 && |uuid| < 0x8000_0000 && |name| < 0x8000_0000
    requires IsText(mcVersion) && IsText(uuid) && IsText(name)
    requires At(data, 8, StringBytes(mcVersion) + StringBytes(uuid) + StringBytes(name))
    ensures PyString(data, 8) == Got(mcVersion, c) && PyString(data, c) == Got(uuid, d)
    ensures PyString(data, d) == Got(name, e)
  {
    c := 8 + |StringBytes(mcVersion)|;
    d := c + |StringBytes(uuid)|;
    e := d + |StringBytes(name)|;
    AtSplit3(data, 8, StringBytes(mcVersion), StringBytes(uuid), StringBytes(name));
    ThreeStringsAt(data, c, d, mcVersion, uuid, name);
  }

  lemma ThreeStringsAt(data: bytes, c: nat, d: nat, x: bytes, y: bytes, z: bytes)
    requires |x| < 0x8000_0000 && |y| < 0x8000_0000 && |z| < 0x8000_0000 && IsText(x) && IsText(y) && IsText(z)
    requires At(data, 8, StringBytes(x)) && At(data, c, StringBytes(y)) && At(data, d, StringBytes(z))
    ensures PyString(data, 8) == Got(x, 8 + |StringBytes(x)|)
    ensures PyString(data, c) == Got(y, c + |StringBytes(y)|) && PyString(data, d) == Got(z, d + |StringBytes(z)|)
  {
    PyStringAt(data, 8, x);
    PyStringAt(data, c, y);
    PyStringAt(data, d, z);
  }

  lemma HandshakeInts(data: bytes, modVersion: int, mcVersion: bytes, uuid: bytes, name: bytes)
    requires InInt32(modVersion) && data == HandshakePayload(modVersion, mcVersion, uuid, name)
    ensures PyInt(data, 0) == Got(1, 4) && PyInt(data, 4) == Got(Unsigned(modVersion), 8)
    ensures At(data, 8, StringBytes(mcVersion) + StringBytes(uuid) + StringBytes(name))
  {
    var ints := JavaIntBytes(PROTOCOL_VERSION) + JavaIntBytes(modVersion);
    AtSplit(data, 0, ints, StringBytes(mcVersion) + StringBytes(uuid) + StringBytes(name));
    AtSplit(data, 0, JavaIntBytes(PROTOCOL_VERSION), JavaIntBytes(modVersion));
    PyIntAt(data, 0, PROTOCOL_VERSION);
    PyIntAt(data, 4, Unsigned(modVersion));
  }

  lemma HandshakeChain(p: Peer, data: bytes, c: nat, d: nat, e: nat, q: Peer)
    requires PyInt(data, 0) == Got(q.protocolVersion, 4) && PyInt(data, 4) == Got(q.modVersion, 8)
    requires PyString(data, 8) == Got(q.mcVersion, c) && PyString(data, c) == Got(q.playerUuid, d)
    requires PyString(data, d) == Got(q.playerName, e)
    ensures AfterHandshake(p, data) == (q, true)
  {
  }

  // ---------------------------------------------------------------- connect request, Java to Python

  function ConnectRequestPayload(serverId: bytes, host: bytes, port: int): bytes
    requires InInt32(port)
  {
    StringBytes(serverId) + StringBytes(host) + JavaIntBytes(port)
  }

  /** What `_handle_connect_request` hands to its callback; Raised leads to a failure response. */
  function ParseConnectRequest(payload: bytes): Read<(bytes, bytes, nat)> {
    match PyString(payload, 0) case Raised => Raised case Got(serverId, a) =>
    match PyString(payload, a) case Raised => Raised case Got(host, b) =>
    match PyInt(payload, b) case Raised => Raised case Got(port, c) => Got((serverId, host, port), c)
  }

  lemma ConnectRequestRoundTrip(serverId: bytes, host: bytes, port: int)
    requires InInt32(port) && |serverId| < 0x8000_0000 && |host| < 0x8000_0000
    requires IsText(serverId) && IsText(host)
    ensures var payload := ConnectRequestPayload(serverId, host, port);
            ParseConnectRequest(payload) == Got((serverId, host, Unsigned(port)), |payload|)
  {
    var data := ConnectRequestPayload(serverId, host, port);
    var a, b := |StringBytes(serverId)|, |StringBytes(serverId)| + |StringBytes(host)|;
    RequestParts(data, serverId, host, port);
    PyStringAt(data, 0, serverId);
    PyStringAt(data, a, host);
    PyIntAt(data, b, Unsigned(port));
    ConnectRequestChain(data, serverId, a, host, b, Unsigned(port), |data|);
  }

  lemma RequestParts(data: bytes, serverId: bytes, host: bytes, port: int)
    requires InInt32(port) && data == ConnectRequestPayload(serverId, host, port)
    ensures var a, b := |StringBytes(serverId)|, |StringBytes(serverId)| + |StringBytes(host)|;
            && At(data, 0, StringBytes(serverId)) && At(data, a, StringBytes(host))
            && At(data, b, PutU32(Unsigned(port))) && b + 4 == |data|
  {
    AtSplit3(data, 0, StringBytes(serverId), StringBytes(host), JavaIntBytes(port));
  }

  lemma ConnectRequestChain(data: bytes, serverId: bytes, a: nat, host: bytes, b: nat, port: nat, c: nat)
    requires PyString(data, 0) == Got(serverId, a) && PyString(data, a) == Got(host, b)
    requires PyInt(data, b) == Got(port, c)
    ensures ParseConnectRequest(data) == Got((serverId, host, port), c)
  {
  }

  // ---------------------------------------------------------------- connect response, Python to Java

  datatype Response = Response(success: bool, serverId: bytes, localHost: bytes, localPort: int, message: bytes)

  predicate Sendable(r: Response) {
    InU32(|r.serverId|) && InU32(|r.localHost|) && InU32(r.localPort) && InU32(|r.message|)
  }

  function ResponseBytes(r: Response): bytes {
    [if r.success then 1 else 0] + NameBytes(r) + (PutU32(r.localPort) + StringBytes(r.message))
  }

  function NameBytes(r: Response): bytes {
    StringBytes(r.serverId) + StringBytes(r.localHost)
  }

  /** `_send_connect_response`; None is the caught `struct.error`. */
  method BuildConnectResponse(response: Response) returns (r: Option<bytes>)
    ensures r == if Sendable(response) then Some(ResponseBytes(response)) else None
  {
    var payload: bytes := [if response.success then 1 else 0];
    var id :- PackString(response.serverId);
    var host :- PackString(response.localHost);
    var port :- PackInt(response.localPort);
    var message :- PackString(response.message);
    r := Some(payload + (id + host) + (port + message));
  }

  function JavaResponse(data: bytes): Option<Response> {
    if data == [] then None
    else
      match JavaString(data, 1) case Raised => None case Got(serverId, a) =>
      match JavaString(data, a) case Raised => None case Got(localHost, b) =>
      match JavaInt(data, b) case Raised => None case Got(localPort, c) =>
      match JavaString(data, c) case Raised => None case Got(message, _) =>
        Some(Response(data[0] != 0, serverId, localHost, localPort, message))
  }

  /** `handleConnectResponse`, up to the use of the values. */
  method HandleConnectResponse(buf: ByteBuf) returns (r: Option<Response>)
    requires buf.readerIndex == 0
    modifies buf
    ensures r == JavaResponse(buf.data)
  {
    var success :- buf.ReadBoolean();
    var serverId :- buf.ReadString();
    var localHost :- buf.ReadString();
    var localPort :- buf.ReadInt();
    var message :- buf.ReadString();
    r := Some(Response(success, serverId, localHost, localPort, message));
  }

  /** The mod reads the response that was sent, a port from 2^31 up excepted, which turns negative. */
  lemma ResponseSeen(r: Response)
    requires Sendable(r) && |r.serverId| < 0x8000_0000 && |r.localHost| < 0x8000_0000 && |r.message| < 0x8000_0000
    ensures JavaResponse(ResponseBytes(r)) == Some(r.(localPort := Sign(r.localPort)))
  {
    ResponseParts(ResponseBytes(r), r);
    ResponseRead(ResponseBytes(r), r);
  }

  lemma ResponseRead(data: bytes, r: Response)
    requires InU32(r.localPort)
    requires |r.serverId| < 0x8000_0000 && |r.localHost| < 0x8000_0000 && |r.message| < 0x8000_0000
    requires data != [] && (data[0] != 0 <==> r.success)
    requires At(data, 1, StringBytes(r.serverId) + StringBytes(r.localHost))
    requires At(data, 1 + |StringBytes(r.serverId)| + |StringBytes(r.localHost)|,
                PutU32(r.localPort) + StringBytes(r.message))
    ensures JavaResponse(data) == Some(r.(localPort := Sign(r.localPort)))
  {
    var o2 := 1 + |StringBytes(r.serverId)|;
    var o3 := o2 + |StringBytes(r.localHost)|;
    TwoStringsAt(data, 1, r.serverId, r.localHost);
    IntStringAt(data, o3, r.localPort, r.message);
    ResponseChain(data, o2, o3, o3 + 4, o3 + 4 + |StringBytes(r.message)|, r.(localPort := Sign(r.localPort)));
  }

  lemma ResponseParts(data: bytes, r: Response)
    requires data == ResponseBytes(r)
    ensures data != [] && (data[0] != 0 <==> r.success)
    ensures At(data, 1, StringBytes(r.serverId) + StringBytes(r.localHost))
    ensures At(data, 1 + |StringBytes(r.serverId)| + |StringBytes(r.localHost)|,
               PutU32(r.localPort) + StringBytes(r.message))
  {
    AtSplit3(data, 0, [if r.success then 1 else 0], NameBytes(r), PutU32(r.localPort) + StringBytes(r.message));
  }

  lemma TwoStringsAt(data: bytes, at: nat, a: bytes, b: bytes)
    requires |a| < 0x8000_0000 && |b| < 0x8000_0000 && At(data, at, StringBytes(a) + StringBytes(b))
    ensures var p := at + |StringBytes(a)|;
            JavaString(data, at) == Got(a, p) && JavaString(data, p) == Got(b, p + |StringBytes(b)|)
  {
    AtSplit(data, at, StringBytes(a), StringBytes(b));
    JavaStringAt(data, at, a);
    JavaStringAt(data, at + |StringBytes(a)|, b);
  }

  lemma IntStringAt(data: bytes, at: nat, v: int, s: bytes)
    requires InU32(v) && |s| < 0x8000_0000 && At(data, at, PutU32(v) + StringBytes(s))
    ensures JavaInt(data, at) == Got(Sign(v), at + 4)
    ensures JavaString(data, at + 4) == Got(s, at + 4 + |StringBytes(s)|)
  {
    AtSplit(data, at, PutU32(v), StringBytes(s));
    JavaIntAt(data, at, v);
    JavaStringAt(data, at + 4, s);
  }

  lemma ResponseChain(data: bytes, o2: nat, o3: nat, o4: nat, o5: nat, r: Response)
    requires data != [] && (data[0] != 0 <==> r.success)
    requires JavaString(data, 1) == Got(r.serverId, o2) && JavaString(data, o2) == Got(r.localHost, o3)
    requires JavaInt(data, o3) == Got(r.localPort, o4) && JavaString(data, o4) == Got(r.message, o5)
    ensures JavaResponse(data) == Some(r)
  {
  }

  // ---------------------------------------------------------------- which packets the mod gets through

  /**
   * `handlePacket` of the mod: reading past the end, or a negative count, throws an exception that the read loop
   * does not catch. `accepted` is whether the game takes over the connection of a successful response.
   */
  function JavaHandles(accepted: bool): Handlers {
    (f: Frame) =>
      if f.kind == SERVER_LIST then JavaServerList(f.payload).Some?
      else if f.kind == CONNECT_RESPONSE then
        match JavaResponse(f.payload) case None => false case Some(r) => !r.success || accepted
      else if f.kind == ERROR then JavaString(f.payload, 0).Got?
      else true
  }

  /** One empty server list packet ends the mod's loop: what comes after it is never handed on. */
  lemma EmptyListEndsLoop(accepted: bool, rest: seq<Frame>)
    requires Framable(rest)
    ensures var parsed := Frames(Java, JavaHandles(accepted), EncodeFrames([Frame(SERVER_LIST, [])] + rest), 0);
            parsed.frames == [Frame(SERVER_LIST, [])] && parsed.stop == Crashed
  {
    var fs := [Frame(SERVER_LIST, [])] + rest;
    FramesRoundTrip(Java, JavaHandles(accepted), fs);
    assert fs[0] == Frame(SERVER_LIST, []) && !JavaHandles(accepted)(fs[0]);
    assert LeadingHandled(fs, JavaHandles(accepted)) == 0 && fs[..1] == [fs[0]];
  }

  /** A connect response the server sends never ends the loop by itself. */
  lemma ResponseHandled(r: Response)
    requires Sendable(r) && |r.serverId| < 0x8000_0000 && |r.localHost| < 0x8000_0000 && |r.message| < 0x8000_0000
    ensures JavaHandles(true)(Frame(CONNECT_RESPONSE, ResponseBytes(r)))
  {
    ResponseSeen(r);
  }
}
