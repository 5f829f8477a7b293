/**
 * The Minecraft protocol adapter: packet ids per version, and the handshake and login packets.
 * Strings stand for their UTF-8 bytes; decoding one raises on bytes that are none.
 */
module ProtocolAdapter {
  import opened Bytes
  import opened VarInt
  import opened Sorting
  import opened Utf8

  const V1_12_2: nat := 340
  const V1_16_5: nat := 754
  const V1_18_2: nat := 758
  const V1_20_1: nat := 763

  type IdTable = map<string, map<nat, nat>>

  function Row(a: nat, b: nat, c: nat, d: nat): map<nat, nat> {
    map[V1_12_2 := a, V1_16_5 := b, V1_18_2 := c, V1_20_1 := d]
  }

  const PACKET_IDS: IdTable := map[
    "handshake" := Row(0x00, 0x00, 0x00, 0x00),
    "status_request" := Row(0x00, 0x00, 0x00, 0x00),
    "status_response" := Row(0x00, 0x00, 0x00, 0x00),
    "login_start" := Row(0x00, 0x00, 0x00, 0x00),
    "login_success" := Row(0x02, 0x02, 0x02, 0x02),
    "join_game" := Row(0x23, 0x24, 0x25, 0x28),
    "player_position" := Row(0x0C, 0x11, 0x11, 0x14),
    "chat_message" := Row(0x02, 0x0E, 0x0F, 0x31)]

  /** k is the newest listed version that is not newer than the wanted one. */
  ghost predicate Newest(versions: map<nat, nat>, version: nat, k: nat) {
    k in versions && k <= version && forall j :: j in versions && j <= version ==> j <= k
  }

  /** `if closest:` also skips a listed version 0, unless it is the wanted one. */
  ghost predicate CachedRight(versions: map<nat, nat>, version: nat, entry: Option<nat>) {
    match entry
    case Some(id) => exists k :: Newest(versions, version, k) && id == versions[k]
    case None => forall k :: k in versions && k <= version ==> k == 0 < version
  }

  function Get(m: map<string, nat>, name: string): Option<nat> {
    if name in m then Some(m[name]) else None
  }

  class MinecraftProtocolAdapter {
    const version: nat
    var packetIdCache: map<string, nat>

    /** Every packet name gets the id of its newest version up to ours. */
    constructor (version: nat)
      ensures this.version == version && packetIdCache.Keys <= PACKET_IDS.Keys
      ensures forall name :: name in PACKET_IDS ==> CachedRight(PACKET_IDS[name], version, Get(packetIdCache, name))
    {
      this.version := version;
      packetIdCache := map[];
      new;
      BuildCache(PACKET_IDS);
    }

    /** After a build on an empty cache every name has the id of its newest version up to ours. */
    method BuildCache(table: IdTable)
      requires packetIdCache == map[]
      modifies this`packetIdCache
      ensures packetIdCache.Keys <= table.Keys
      ensures forall name :: name in table ==> CachedRight(table[name], version, Get(packetIdCache, name))
    {
      var left := table.Keys;
      while left != {}
        invariant left <= table.Keys && packetIdCache.Keys <= table.Keys - left
        invariant forall name :: name in table && name !in left ==>
          CachedRight(table[name], version, Get(packetIdCache, name))
      {
        var name :| name in left;
        var versions := table[name];
        if version in versions {
          assert Newest(versions, version, version);
          packetIdCache := packetIdCache[name := versions[version]];
        } else {
          var closest := ClosestVersion(versions, version);
          if closest.Some? && closest.value != 0 {
            packetIdCache := packetIdCache[name := versions[closest.value]];
          }
        }
        left := left - {name};
      }
    }

    method GetPacketId(name: string) returns (id: Option<nat>)
      ensures id == Get(packetIdCache, name)
    {
      id := if name in packetIdCache then Some(packetIdCache[name]) else None;
    }

    /** None is the `struct.error` of a port outside 16 bits. */
    method CreateHandshakePacket(protocol: nat, address: bytes, port: int, nextState: nat) returns (r: Option<bytes>)
      ensures r == HandshakeBytes(Get(packetIdCache, "handshake"), Handshake(protocol, address, port, nextState))
    {
      var data := EncodeVarint(protocol);
      data := data + EncodeString(address);
      if !InU16(port) {
        return None;
      }
      data := data + PutU16(port);
      var next := EncodeVarint(nextState);
      data := data + next;
      var known := GetPacketId("handshake");
      var id := EncodeVarint(if known.Some? then known.value else 0);
      var packetData := id + data;
      var length := EncodeVarint(|packetData|);
      FourFields(IntField(protocol), TextField(address), ShortField(port), IntField(nextState));
      r := Some(length + packetData);
    }

    method CreateLoginStart(username: bytes) returns (r: bytes)
      ensures r == LoginStartBytes(Get(packetIdCache, "login_start"), username)
    {
      var known := GetPacketId("login_start");
      var id := EncodeVarint(if known.Some? then known.value else 0);
      var packetData := id + EncodeString(username);
      var length := EncodeVarint(|packetData|);
      assert [TextField(username)][1..] == [];
      assert EncodeFields([TextField(username)]) == EncodeString(username);
      r := length + packetData;
    }
  }

  method ClosestVersion(versions: map<nat, nat>, version: nat) returns (closest: Option<nat>)
    ensures match closest
            case Some(k) => Newest(versions, version, k)
            case None => forall k :: k in versions ==> k > version
  {
    var sorted := Sorted(versions.Keys);
    closest := None;
    assert forall k: nat :: k in versions ==> k as int in sorted;
    assert forall i :: 0 <= i < |sorted| ==> sorted[i] in sorted;
    for i := 0 to |sorted|
      invariant match closest
                case Some(k) => k in versions && k <= version &&
                                forall j :: 0 <= j < i && sorted[j] <= version ==> sorted[j] <= k
                case None => forall j :: 0 <= j < i ==> sorted[j] > version
    {
      if sorted[i] <= version {
        closest := Some(sorted[i]);
      }
    }
  }

  // ---------------------------------------------------------------- packets

  datatype Handshake = Handshake(protocol: nat, address: bytes, port: int, nextState: nat)

  function IdOr0(id: Option<nat>): nat {
    match id case Some(v) => v case None => 0
  }

  function EncodeString(s: bytes): bytes {
    Encode(|s|) + s
  }

  function WithLength(packetData: bytes): bytes {
    Encode(|packetData|) + packetData
  }

  /** What a packet is made of, and the encoders of this file. */
  datatype Field = IntField(number: nat) | TextField(text: bytes) | ShortField(short: u16)

  type u16 = v: nat | v < 0x1_0000

  predicate Encodable(f: Field) {
    match f
    case IntField(n) => n < VARINT_LIMIT
    case TextField(t) => |t| < VARINT_LIMIT && IsText(t)
    case ShortField(_) => true
  }

  function EncodeField(f: Field): bytes {
    match f
    case IntField(n) => Encode(n)
    case TextField(t) => EncodeString(t)
    case ShortField(v) => PutU16(v)
  }

  function EncodeFields(fs: seq<Field>): bytes {
    if fs == [] then [] else EncodeField(fs[0]) + EncodeFields(fs[1..])
  }

  /** [length] [packet id] [fields], the length counting what follows it. */
  function PacketBytes(id: nat, fs: seq<Field>): bytes {
    WithLength(Encode(id) + EncodeFields(fs))
  }

  function HandshakeFields(h: Handshake): seq<Field>
    requires InU16(h.port)
  {
    [IntField(h.protocol), TextField(h.address), ShortField(h.port), IntField(h.nextState)]
  }

  function HandshakeBytes(id: Option<nat>, h: Handshake): Option<bytes> {
    if InU16(h.port) then Some(PacketBytes(IdOr0(id), HandshakeFields(h))) else None
  }

  function LoginStartBytes(id: Option<nat>, username: bytes): bytes {
    PacketBytes(IdOr0(id), [TextField(username)])
  }

  /** A decoder's value and the offset behind it; Raised for its exceptions. */
  datatype Read<+T> = Got(value: T, next: nat) | Raised

  function ReadVarint(data: bytes, offset: nat): Read<nat> {
    match Decode(data, offset) case Ok(v, next) => Got(v, next) case error => Raised
  }

  /** The slice of a string that runs past the end is silently shorter, if it is text at all; the offset is not. */
  function DecodeString(data: bytes, offset: nat): Read<bytes> {
    match ReadVarint(data, offset)
    case Got(length, at) =>
      var s := Slice(data, at, at + length);
      if IsText(s) then Got(s, at + length) else Raised
    case Raised => Raised
  }

  function DecodeShort(data: bytes, offset: nat): Read<nat> {
    if offset + 2 <= |data| then Got(GetU16(data[offset..offset + 2]), offset + 2) else Raised
  }

  datatype Kind = Int | Text | Short

  function KindOf(f: Field): Kind {
    match f case IntField(_) => Int case TextField(_) => Text case ShortField(_) => Short
  }

  function KindsOf(fs: seq<Field>): seq<Kind> {
    seq(|fs|, i requires 0 <= i < |fs| => KindOf(fs[i]))
  }

  function DecodeField(data: bytes, offset: nat, k: Kind): Read<Field> {
    match k
    case Int => (match ReadVarint(data, offset) case Got(v, next) => Got(IntField(v), next) case Raised => Raised)
    case Text => (match DecodeString(data, offset) case Got(v, next) => Got(TextField(v), next) case Raised => Raised)
    case Short => (match DecodeShort(data, offset) case Got(v, next) => Got(ShortField(v), next) case Raised => Raised)
  }

  /** The decoders of this file, taken in order. */
  function DecodeFields(data: bytes, offset: nat, kinds: seq<Kind>): Read<seq<Field>>
    decreases kinds
  {
    if kinds == [] then Got([], offset)
    else match DecodeField(data, offset, kinds[0])
      case Raised => Raised
      case Got(f, next) =>
        match DecodeFields(data, next, kinds[1..])
        case Raised => Raised
        case Got(fs, end) => Got([f] + fs, end)
  }

  /** `parse_login_success`: the UUID, then the user name. */
  method ParseLoginSuccess(data: bytes) returns (r: Option<(bytes, bytes)>)
    ensures r == LoginSuccess(data)
  {
    var offset := 0;
    var uuid := DecodeString(data, offset);
    if uuid.Raised? {
      return None;
    }
    offset := uuid.next;
    var name := DecodeString(data, offset);
    r := if name.Raised? then None else Some((uuid.value, name.value));
  }

  function LoginSuccess(data: bytes): Option<(bytes, bytes)> {
    match DecodeString(data, 0) case Raised => None case Got(uuid, o1) =>
    match DecodeString(data, o1) case Raised => None case Got(name, _) => Some((uuid, name))
  }

  // ---------------------------------------------------------------- theorems

  const VARINT_LIMIT: nat := 0x8_0000_0000

  /** What a string decodes to, from its length and the slice behind it. */
  lemma DecodedSlice(data: bytes, pos: nat, m: nat, at: nat, s: bytes)
    requires ReadVarint(data, pos) == Got(m, at) && Slice(data, at, at + m) == s
    ensures DecodeString(data, pos) == if IsText(s) then Got(s, at + m) else Raised
  {
  }

  lemma StringParts(data: bytes, pos: nat, s: bytes)
    requires At(data, pos, EncodeString(s)) && |s| < VARINT_LIMIT
    ensures var at := pos + |Encode(|s|)|;
            && ReadVarint(data, pos) == Got(|s|, at) && Slice(data, at, at + |s|) == s
            && at + |s| == pos + |EncodeString(s)|
  {
    AtSplit(data, pos, Encode(|s|), s);
    DecodeAt(data, pos, |s|);
    AtSlice(data, pos + |Encode(|s|)|, s);
  }

  lemma StringAt(data: bytes, pos: nat, s: bytes)
    requires At(data, pos, EncodeString(s)) && |s| < VARINT_LIMIT && IsText(s)
    ensures DecodeString(data, pos) == Got(s, pos + |EncodeString(s)|)
  {
    StringParts(data, pos, s);
    DecodedSlice(data, pos, |s|, pos + |Encode(|s|)|, s);
  }

  lemma ShortAt(data: bytes, pos: nat, v: int)
    requires InU16(v) && At(data, pos, PutU16(v))
    ensures DecodeShort(data, pos) == Got(v, pos + 2)
  {
    U16RoundTrip(v);
  }

  lemma FieldAt(data: bytes, pos: nat, f: Field)
    requires Encodable(f) && At(data, pos, EncodeField(f))
    ensures DecodeField(data, pos, KindOf(f)) == Got(f, pos + |EncodeField(f)|)
  {
    match f
    case IntField(n) => DecodeAt(data, pos, n);
    case TextField(t) => StringAt(data, pos, t);
    case ShortField(v) => ShortAt(data, pos, v);
  }

  lemma DecodeCons(data: bytes, pos: nat, f: Field, next: nat, fs: seq<Field>, end: nat)
    requires DecodeField(data, pos, KindOf(f)) == Got(f, next)
    requires DecodeFields(data, next, KindsOf(fs)) == Got(fs, end)
    ensures DecodeFields(data, pos, KindsOf([f] + fs)) == Got([f] + fs, end)
  {
    assert KindsOf([f] + fs)[1..] == KindsOf(fs);
  }

  lemma EncodeCons(f: Field, fs: seq<Field>)
    ensures EncodeFields([f] + fs) == EncodeField(f) + EncodeFields(fs)
  {
    assert ([f] + fs)[1..] == fs;
  }

  /** The first field comes off and the rest stands behind it. */
  lemma FirstField(data: bytes, pos: nat, f: Field, rest: seq<Field>) returns (next: nat)
    requires Encodable(f) && At(data, pos, EncodeFields([f] + rest))
    ensures DecodeField(data, pos, KindOf(f)) == Got(f, next) && At(data, next, EncodeFields(rest))
    ensures next + |EncodeFields(rest)| == pos + |EncodeFields([f] + rest)|
  {
    next := pos + |EncodeField(f)|;
    EncodeCons(f, rest);
    AtSplit(data, pos, EncodeField(f), EncodeFields(rest));
    FieldAt(data, pos, f);
  }

  lemma {:induction false} FieldsAt(data: bytes, pos: nat, fs: seq<Field>)
    requires (forall f :: f in fs ==> Encodable(f)) && At(data, pos, EncodeFields(fs))
    ensures DecodeFields(data, pos, KindsOf(fs)) == Got(fs, pos + |EncodeFields(fs)|)
    decreases fs
  {
    if fs != [] {
      var f, rest := fs[0], fs[1..];
      assert fs == [f] + rest;
      var next := FirstField(data, pos, f, rest);
      FieldsAt(data, next, rest);
      DecodeCons(data, pos, f, next, rest, next + |EncodeFields(rest)|);
    }
  }

  /** Every packet is read back field by field, to its last byte, and its prefix counts the bytes behind it. */
  lemma PacketRoundTrip(id: nat, fs: seq<Field>)
    requires id < VARINT_LIMIT && (forall f :: f in fs ==> Encodable(f))
    requires |Encode(id) + EncodeFields(fs)| < VARINT_LIMIT
    ensures var data := PacketBytes(id, fs);
            var n := |Encode(id) + EncodeFields(fs)|;
            DecodeFields(data, 0, [Int, Int] + KindsOf(fs)) == Got([IntField(n), IntField(id)] + fs, |data|) &&
            n == |data| - |Encode(n)|
  {
    var n := |Encode(id) + EncodeFields(fs)|;
    var all := [IntField(n), IntField(id)] + fs;
    PacketFields(id, fs, n, all);
    assert forall f :: f in all ==> Encodable(f);
    FieldsAt(PacketBytes(id, fs), 0, all);
  }

  lemma PacketFields(id: nat, fs: seq<Field>, n: nat, all: seq<Field>)
    requires n == |Encode(id) + EncodeFields(fs)| && all == [IntField(n), IntField(id)] + fs
    ensures EncodeFields(all) == PacketBytes(id, fs) && KindsOf(all) == [Int, Int] + KindsOf(fs)
  {
    var one := [IntField(id)] + fs;
    assert all == [IntField(n)] + one;
    EncodeCons(IntField(n), one);
    EncodeCons(IntField(id), fs);
    KindsCons(IntField(n), one);
    KindsCons(IntField(id), fs);
  }

  lemma KindsCons(f: Field, fs: seq<Field>)
    ensures KindsOf([f] + fs) == [KindOf(f)] + KindsOf(fs)
  {
    assert ([f] + fs)[1..] == fs;
  }

  /** A handshake gives back its protocol version, address, port and next state. */
  lemma HandshakeRoundTrip(id: Option<nat>, h: Handshake)
    requires IdOr0(id) < VARINT_LIMIT && h.protocol < VARINT_LIMIT && h.nextState < VARINT_LIMIT && InU16(h.port)
    requires |h.address| < VARINT_LIMIT - 32 && IsText(h.address)
    ensures HandshakeBytes(id, h).Some?
    ensures var data, known := HandshakeBytes(id, h).value, match id case Some(v) => v case None => 0;
            exists n :: n == |data| - |Encode(n)| && 0 <= n &&
                        DecodeFields(data, 0, [Int, Int, Int, Text, Short, Int]) ==
                        Got([IntField(n), IntField(known), IntField(h.protocol), TextField(h.address),
                             ShortField(h.port), IntField(h.nextState)], |data|)
  {
    HandshakeSize(IdOr0(id), h);
    PacketRoundTrip(IdOr0(id), HandshakeFields(h));
    assert KindsOf(HandshakeFields(h)) == HANDSHAKE_KINDS;
    assert [Int, Int] + HANDSHAKE_KINDS == [Int, Int, Int, Text, Short, Int];
    var n := |Encode(IdOr0(id)) + EncodeFields(HandshakeFields(h))|;
    assert [IntField(n), IntField(IdOr0(id))] + HandshakeFields(h) ==
           [IntField(n), IntField(IdOr0(id)), IntField(h.protocol), TextField(h.address),
            ShortField(h.port), IntField(h.nextState)];
  }

  /** A login start gives back its packet id, 0 if none is known, and the user name. */
  lemma LoginStartRoundTrip(id: Option<nat>, username: bytes)
    requires (id.Some? ==> id.value < VARINT_LIMIT) && |username| < VARINT_LIMIT - 32 && IsText(username)
    ensures var data, known := LoginStartBytes(id, username), match id case Some(v) => v case None => 0;
            exists n :: n == |data| - |Encode(n)| && 0 <= n &&
                        DecodeFields(data, 0, [Int, Int, Text]) ==
                        Got([IntField(n), IntField(known), TextField(username)], |data|)
  {
    var fs := [TextField(username)];
    var n := |Encode(IdOr0(id)) + EncodeFields(fs)|;
    EncodeCons(TextField(username), []);
    assert [TextField(username)] + [] == fs;
    PowersOfTwo();
    EncodeLength(IdOr0(id), 5);
    EncodeLength(|username|, 5);
    PacketRoundTrip(IdOr0(id), fs);
    assert KindsOf(fs) == [Text] && [Int, Int] + [Text] == [Int, Int, Text];
    assert [IntField(n), IntField(IdOr0(id))] + fs == [IntField(n), IntField(IdOr0(id)), TextField(username)];
  }

  /** Below 1.12.2 (340) no packet has an id; from there on the ids change at 754, 758 and 763. */
  lemma IdsExactly(version: nat, name: string, entry: Option<nat>)
    requires name in PACKET_IDS && CachedRight(PACKET_IDS[name], version, entry)
    ensures version < 340 ==> entry == None
    ensures version >= 340 ==>
              var era := if version < 754 then 0 else if version < 758 then 1 else if version < 763 then 2 else 3;
              entry == Some(
                if name == "join_game" then [0x23, 0x24, 0x25, 0x28][era]
                else if name == "player_position" then [0x0C, 0x11, 0x11, 0x14][era]
                else if name == "chat_message" then [0x02, 0x0E, 0x0F, 0x31][era]
                else if name == "login_success" then 0x02
                else 0x00)
  {
    var row := PACKET_IDS[name];
    assert row.Keys == {340, 754, 758, 763};
    RowExactly(row, version, entry);
  }

  function ById(row: map<nat, nat>, version: nat): Option<nat>
    requires row.Keys == {340, 754, 758, 763}
  {
    if version < 340 then None
    else Some(row[if version < 754 then 340 else if version < 758 then 754 else if version < 763 then 758 else 763])
  }

  lemma RowExactly(row: map<nat, nat>, version: nat, entry: Option<nat>)
    requires row.Keys == {340, 754, 758, 763} && CachedRight(row, version, entry)
    ensures entry == ById(row, version)
  {
    assert 340 in row && 754 in row && 758 in row && 763 in row;
  }

  const HANDSHAKE_KINDS: seq<Kind> := [Int, Text, Short, Int]

  lemma HandshakeSize(id: nat, h: Handshake)
    requires id < VARINT_LIMIT && h.protocol < VARINT_LIMIT && h.nextState < VARINT_LIMIT && InU16(h.port)
    requires |h.address| < VARINT_LIMIT - 32
    ensures |Encode(id) + EncodeFields(HandshakeFields(h))| < VARINT_LIMIT
  {
    FourFields(IntField(h.protocol), TextField(h.address), ShortField(h.port), IntField(h.nextState));
    PowersOfTwo();
    EncodeLength(id, 5);
    EncodeLength(h.protocol, 5);
    EncodeLength(|h.address|, 5);
    EncodeLength(h.nextState, 5);
  }

  lemma Regroup(a: bytes, b: bytes, c: bytes, d: bytes)
    ensures a + (b + (c + (d + []))) == a + b + c + d
  {
  }

  lemma FourFields(a: Field, b: Field, c: Field, d: Field)
    ensures EncodeFields([a, b, c, d]) == EncodeField(a) + EncodeField(b) + EncodeField(c) + EncodeField(d)
  {
    assert [d] + [] == [d] && [c] + [d] == [c, d] && [b] + [c, d] == [b, c, d] && [a] + [b, c, d] == [a, b, c, d];
    EncodeCons(d, []);
    EncodeCons(c, [d]);
    EncodeCons(b, [c, d]);
    EncodeCons(a, [b, c, d]);
    Regroup(EncodeField(a), EncodeField(b), EncodeField(c), EncodeField(d));
  }

  /**
   * `parse_login_success` on any leading part of two encoded strings: None when the cut falls before the bytes
   * of the second string or inside one of its characters, and a silently shortened name when it falls between
   * two of them; right on the whole.
   */
  lemma LoginSuccessOnPrefix(uuid: bytes, name: bytes, n: nat)
    requires IsText(uuid) && IsText(name) && |uuid| < VARINT_LIMIT && |name| < VARINT_LIMIT
    requires n <= |EncodeString(uuid) + EncodeString(name)|
    ensures var head := |EncodeString(uuid) + Encode(|name|)|;
            LoginSuccess((EncodeString(uuid) + EncodeString(name))[..n]) ==
            if n >= head && Boundary(name, n - head) then Some((uuid, name[..n - head])) else None
  {
    var first, size := EncodeString(uuid), Encode(|name|);
    assert first + EncodeString(name) == first + size + name;
    if n >= |first + size| {
      PrefixBeyond(first + size, name, n);
      CutExactly(name, n - |first + size|);
      ShortName((first + size + name)[..n], uuid, |name|, name[..n - |first + size|]);
    } else {
      assert (first + size + name)[..n] == (first + size)[..n];
      CutString((first + size)[..n], n, uuid, |name|);
    }
  }

  lemma PrefixBeyond(a: bytes, b: bytes, n: nat)
    requires |a| <= n <= |a + b|
    ensures (a + b)[..n] == a + b[..n - |a|]
  {
  }

  lemma ShortName(data: bytes, uuid: bytes, m: nat, name: bytes)
    requires IsText(uuid) && |uuid| < VARINT_LIMIT && |name| <= m < VARINT_LIMIT
    requires data == EncodeString(uuid) + Encode(m) + name
    ensures LoginSuccess(data) == if IsText(name) then Some((uuid, name)) else None
  {
    Reassociate(EncodeString(uuid), Encode(m), name);
    UuidRead(data, uuid, Encode(m) + name);
    LengthRead(data, EncodeString(uuid), m, name);
    NameRead(data, uuid, EncodeString(uuid), Encode(m), m, name);
  }

  lemma Reassociate(a: bytes, b: bytes, c: bytes)
    ensures a + b + c == a + (b + c)
  {
  }

  lemma NameRead(data: bytes, uuid: bytes, first: bytes, length: bytes, m: nat, name: bytes)
    requires |name| <= m && data == first + length + name
    requires DecodeString(data, 0) == Got(uuid, |first|) && ReadVarint(data, |first|) == Got(m, |first + length|)
    ensures LoginSuccess(data) == if IsText(name) then Some((uuid, name)) else None
  {
    StringBehind(data, first, length, m, name);
  }

  lemma UuidRead(data: bytes, uuid: bytes, rest: bytes)
    requires IsText(uuid) && |uuid| < VARINT_LIMIT && data == EncodeString(uuid) + rest
    ensures DecodeString(data, 0) == Got(uuid, |EncodeString(uuid)|)
  {
    StringAt(data, 0, uuid);
  }

  lemma LengthRead(data: bytes, first: bytes, m: nat, rest: bytes)
    requires m < VARINT_LIMIT && data == first + Encode(m) + rest
    ensures ReadVarint(data, |first|) == Got(m, |first + Encode(m)|)
  {
    assert At(data, |first|, Encode(m));
    DecodeAt(data, |first|, m);
  }

  /** A length and no more than that many bytes, at the end of the data. */
  lemma StringBehind(data: bytes, first: bytes, length: bytes, m: nat, s: bytes)
    requires |s| <= m && data == first + length + s
    requires ReadVarint(data, |first|) == Got(m, |first + length|)
    ensures DecodeString(data, |first|) == if IsText(s) then Got(s, |first + length| + m) else Raised
  {
    assert Slice(data, |first + length|, |first + length| + m) == s by {
      SliceBehind(first + length, s, m);
    }
    DecodedSlice(data, |first|, m, |first + length|, s);
  }

  lemma SliceBehind(pre: bytes, s: bytes, m: nat)
    requires |s| <= m
    ensures Slice(pre + s, |pre|, |pre| + m) == s
  {
  }

  lemma CutVarint(pre: bytes, v: nat, n: nat)
    requires n < |Encode(v)| && v < VARINT_LIMIT
    ensures Decode(pre + Encode(v)[..n], |pre|) == Incomplete
  {
    var data := pre + Encode(v)[..n];
    EncodeForm(v);
    EncodeLength(v, 5);
    PowersOfTwo();
    forall i | |pre| <= i < |data| ensures data[i] >= 128 {
      assert data[i] == Encode(v)[i - |pre|];
    }
    DecodesExactly(data, |pre|, 0, 0);
  }

  lemma CutString(data: bytes, n: nat, uuid: bytes, m: nat)
    requires IsText(uuid) && |uuid| < VARINT_LIMIT && m < VARINT_LIMIT
    requires n < |EncodeString(uuid) + Encode(m)| && data == (EncodeString(uuid) + Encode(m))[..n]
    ensures LoginSuccess(data) == None
  {
    var first, length := EncodeString(uuid), Encode(|uuid|);
    if n >= |first| {
      assert data == first + Encode(m)[..n - |first|];
      CutInSize(data, uuid, m, n - |first|);
    } else if n >= |length| {
      assert data == length + uuid[..n - |length|];
      CutInText(data, |uuid|, uuid[..n - |length|]);
    } else {
      CutVarint([], |uuid|, n);
      assert data == [] + length[..n];
    }
  }

  lemma CutInSize(data: bytes, uuid: bytes, m: nat, k: nat)
    requires IsText(uuid) && |uuid| < VARINT_LIMIT && m < VARINT_LIMIT && k < |Encode(m)|
    requires data == EncodeString(uuid) + Encode(m)[..k]
    ensures LoginSuccess(data) == None
  {
    assert At(data, 0, EncodeString(uuid));
    StringAt(data, 0, uuid);
    CutVarint(EncodeString(uuid), m, k);
    NoSecondLength(data, uuid, |EncodeString(uuid)|);
  }

  lemma NoSecondLength(data: bytes, uuid: bytes, at: nat)
    requires DecodeString(data, 0) == Got(uuid, at) && Decode(data, at) == Incomplete
    ensures LoginSuccess(data) == None
  {
  }

  lemma CutInText(data: bytes, m: nat, part: bytes)
    requires |part| < m < VARINT_LIMIT && data == Encode(m) + part
    ensures LoginSuccess(data) == None
  {
    assert At(data, 0, Encode(m));
    DecodeAt(data, 0, m);
    DecodedSlice(data, 0, m, |Encode(m)|, part);
  }
}
