/** One packet of each format, byte by byte: the order of the fields and the widths of the numbers. */
module WireExamples {
  import opened Bytes
  import ModProtocol
  import ModMessages
  import TcpBridge
  import ProtocolAdapter
  import MinecraftProxy
  import VarInt

  lemma Numbers()
    ensures PutU16(25565) == [0x63, 0xDD] && PutU32(1) == [0, 0, 0, 1] && PutU32(2) == [0, 0, 0, 2]
    ensures PutU32(7) == [0, 0, 0, 7] && PutU32(20) == [0, 0, 0, 20] && PutU32(25565) == [0, 0, 0x63, 0xDD]
    ensures PutU32(0x0102_0304) == [1, 2, 3, 4] && PutU32(0xFFFF_FFFF) == [0xFF, 0xFF, 0xFF, 0xFF]
  {
  }

  lemma Text(b: byte)
    ensures ModProtocol.StringBytes([b]) == [0, 0, 0, 1, b]
  {
    Numbers();
  }

  /** [length: 4] [type: 1] [payload], the length counting the type. */
  lemma ModFrame()
    ensures ModProtocol.EncodeFrame(ModProtocol.Frame(0x05, [0xAA])) == Some([0, 0, 0, 2, 0x05, 0xAA])
  {
    Numbers();
    assert ModProtocol.FrameBytes(ModProtocol.Frame(0x05, [0xAA])) == [0, 0, 0, 2, 0x05, 0xAA];
  }

  const SERVER := ModProtocol.Server([0x61], [0x62], [0x63], [0x64], 25565, 7, 1, 20, [0x65])

  const RECORD: bytes :=
    [0, 0, 0, 1, 0x61, 0, 0, 0, 1, 0x62, 0, 0, 0, 1, 0x63, 0, 0, 0, 1, 0x64] +
    [0, 0, 0x63, 0xDD, 0, 0, 0, 7, 0, 0, 0, 1, 0, 0, 0, 20] + [0, 0, 0, 1, 0x65]

  /** Count; then id, name, description, host, port, latency, players, most players and version of each server. */
  lemma ServerList()
    ensures ModProtocol.ServerListFrame([SERVER]) ==
            Some([0, 0, 0, 46, 0x03, 0, 0, 0, 1] + RECORD)
  {
    ServerRecord();
    OneRecord(SERVER, RECORD);
    Framed([0, 0, 0, 1] + RECORD);
    assert [0, 0, 0, 46, 0x03] + ([0, 0, 0, 1] + RECORD) == [0, 0, 0, 46, 0x03, 0, 0, 0, 1] + RECORD;
  }

  lemma OneRecord(s: ModProtocol.Server, record: bytes)
    requires ModProtocol.Packable(s) && ModProtocol.ServerBytes(s) == record
    ensures ModProtocol.ServerListPayload([s]) == Some([0, 0, 0, 1] + record)
  {
    ConcatOne(ModProtocol.ServerBytes, s);
    assert PutU32(1) == [0, 0, 0, 1];
  }

  lemma ConcatOne<T>(f: T -> bytes, x: T)
    ensures ConcatMap(f, [x]) == f(x)
  {
    assert [x][1..] == [] && f(x) + [] == f(x);
  }

  lemma Framed(payload: bytes)
    requires |payload| == 45
    ensures ModProtocol.EncodeFrame(ModProtocol.Frame(ModProtocol.SERVER_LIST, payload)) ==
            Some([0, 0, 0, 46, 0x03] + payload)
  {
    assert PutU32(46) == [0, 0, 0, 46];
    assert ModProtocol.FrameBytes(ModProtocol.Frame(ModProtocol.SERVER_LIST, payload)) == [0, 0, 0, 46, 0x03] + payload;
  }

  lemma ServerRecord()
    ensures ModProtocol.ServerBytes(SERVER) == RECORD
  {
    Numbers();
    Text(0x61);
    Text(0x62);
    Text(0x63);
    Text(0x64);
    Text(0x65);
  }

  /** Protocol version, mod version, Minecraft version, player id, player name. */
  lemma ModHandshake()
    ensures ModMessages.HandshakePayload(-1, [0x61], [0x62], [0x63]) ==
            [0, 0, 0, 1, 0xFF, 0xFF, 0xFF, 0xFF] + [0, 0, 0, 1, 0x61, 0, 0, 0, 1, 0x62, 0, 0, 0, 1, 0x63]
  {
    Numbers();
    Text(0x61);
    Text(0x62);
    Text(0x63);
  }

  /** Server id, host, port. */
  lemma ConnectRequest()
    ensures ModMessages.ConnectRequestPayload([0x61], [0x62], 25565) ==
            [0, 0, 0, 1, 0x61, 0, 0, 0, 1, 0x62, 0, 0, 0x63, 0xDD]
  {
    Numbers();
    Text(0x61);
    Text(0x62);
  }

  /** Success, server id, local host, local port, message. */
  lemma ConnectResponse()
    ensures ModMessages.ResponseBytes(ModMessages.Response(true, [0x61], [0x62], 25565, [0x63])) ==
            [1, 0, 0, 0, 1, 0x61, 0, 0, 0, 1, 0x62, 0, 0, 0x63, 0xDD, 0, 0, 0, 1, 0x63]
  {
    Numbers();
    Text(0x61);
    Text(0x62);
    Text(0x63);
  }

  /** [id length: 1] [id] [sequence: 4] [flags: 1] [data length: 4] [data]. */
  lemma BridgePacket()
    ensures var p := TcpBridge.TCPPacket([0x61], 7, [0xAA, 0xBB], TcpBridge.FLAG_DATA);
            TcpBridge.Fits(p) &&
            TcpBridge.Header(p) + p.data == [1, 0x61, 0, 0, 0, 7, 0x01, 0, 0, 0, 2, 0xAA, 0xBB]
  {
    Numbers();
  }

  /** [length] [packet id 0] [protocol] [address length] [address] [port: 2] [next state]; 763 is 5 * 128 + 123. */
  lemma MinecraftHandshake()
    ensures ProtocolAdapter.HandshakeBytes(None, ProtocolAdapter.Handshake(763, [0x68], 25565, 2)) ==
            Some([8, 0, 0xFB, 0x05, 1, 0x68, 0x63, 0xDD, 2])
  {
    var fields := ProtocolAdapter.HandshakeFields(ProtocolAdapter.Handshake(763, [0x68], 25565, 2));
    HandshakeFields();
    assert VarInt.Encode(0) == [0] && VarInt.Encode(8) == [8];
    assert VarInt.Encode(0) + ProtocolAdapter.EncodeFields(fields) == [0, 0xFB, 0x05, 1, 0x68, 0x63, 0xDD, 2];
    assert ProtocolAdapter.PacketBytes(0, fields) == [8, 0, 0xFB, 0x05, 1, 0x68, 0x63, 0xDD, 2];
  }

  lemma HandshakeFields()
    ensures ProtocolAdapter.EncodeFields(
              ProtocolAdapter.HandshakeFields(ProtocolAdapter.Handshake(763, [0x68], 25565, 2))) ==
            [0xFB, 0x05, 1, 0x68, 0x63, 0xDD, 2]
  {
    Numbers();
    assert VarInt.Encode(5) == [0x05] && VarInt.Encode(763) == [0xFB, 0x05];
    assert VarInt.Encode(1) == [1] && VarInt.Encode(2) == [2];
    ProtocolAdapter.FourFields(ProtocolAdapter.IntField(763), ProtocolAdapter.TextField([0x68]),
                               ProtocolAdapter.ShortField(25565), ProtocolAdapter.IntField(2));
  }

  /** [length] [packet id 0] [name length] [name]. */
  lemma LoginStart()
    ensures ProtocolAdapter.LoginStartBytes(None, [0x61]) == [3, 0, 1, 0x61]
  {
    assert VarInt.Encode(0) == [0] && VarInt.Encode(1) == [1] && VarInt.Encode(3) == [3];
    ProtocolAdapter.EncodeCons(ProtocolAdapter.TextField([0x61]), []);
    assert [ProtocolAdapter.TextField([0x61])] + [] == [ProtocolAdapter.TextField([0x61])];
  }

  /** [length] [packet id] [data]. */
  lemma ProxyPacket()
    ensures MinecraftProxy.EncodePacket(MinecraftProxy.Packet(1, [9])) == [2, 1, 9]
  {
    assert VarInt.Encode(1) == [1] && VarInt.Encode(2) == [2];
  }
}
