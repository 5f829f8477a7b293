/**
 * What the readers of the mod protocol make of any payload: the Java ones succeed exactly on the bytes of what they
 * return, so nothing is read from a payload that was cut; the Python ones can lose the end of a string.
 */
module ModReading {
  import opened Bytes
  import opened ModProtocol
  import opened ModMessages
  import opened Utf8

  lemma AtJoin(data: bytes, pos: nat, a: bytes, b: bytes)
    requires At(data, pos, a) && At(data, pos + |a|, b)
    ensures At(data, pos, a + b)
  {
    var whole := data[pos..pos + |a + b|];
    assert whole[..|a|] == a && whole[|a|..] == b;
    assert whole == whole[..|a|] + whole[|a|..];
  }

  // ---------------------------------------------------------------- Java

  lemma IntExactly(data: bytes, at: nat, v: int, p: nat)
    ensures JavaInt(data, at) == Got(v, p) <==>
            InInt32(v) && p == at + 4 && At(data, at, PutU32(Unsigned(v)))
  {
    if at + 4 <= |data| {
      U32Back(data[at..at + 4]);
    }
    if InInt32(v) {
      U32RoundTrip(Unsigned(v));
    }
  }

  lemma StringExactly(data: bytes, at: nat, s: bytes, p: nat)
    ensures JavaString(data, at) == Got(s, p) <==>
            |s| < 0x8000_0000 && p == at + |StringBytes(s)| && At(data, at, StringBytes(s))
  {
    if |s| < 0x8000_0000 && At(data, at, StringBytes(s)) {
      JavaStringAt(data, at, s);
    }
    if JavaString(data, at) == Got(s, p) {
      IntExactly(data, at, |s|, at + 4);
      AtJoin(data, at, PutU32(|s|), s);
    }
  }

  predicate FromJava(s: Server) {
    ShortStrings(s) && InInt32(s.port) && InInt32(s.latency) && InInt32(s.playerCount) && InInt32(s.maxPlayers)
  }

  /** The record as it travels: a negative number as its two's complement word. */
  function OnWire(s: Server): Server {
    s.(port := Unsigned(s.port), latency := Unsigned(s.latency),
       playerCount := Unsigned(s.playerCount), maxPlayers := Unsigned(s.maxPlayers))
  }

  lemma TextsBack(data: bytes, at: nat, s: Server, p: nat)
    requires FourStrings(data, at) == Got((s.id, s.name, s.description, s.host), p)
    ensures |s.id| < 0x8000_0000 && |s.name| < 0x8000_0000 && |s.description| < 0x8000_0000 && |s.host| < 0x8000_0000
    ensures At(data, at, TextBytes(s)) && p == at + |TextBytes(s)|
  {
    var a, b, c := StringBytes(s.id), StringBytes(s.name), StringBytes(s.description);
    var d := StringBytes(s.host);
    FourSteps(data, at, s.id, s.name, s.description, s.host, p);
    AtJoin(data, at, a, b);
    AtJoin(data, at, a + b, c);
    AtJoin(data, at, a + b + c, d);
  }

  lemma FourSteps(data: bytes, at: nat, a: bytes, b: bytes, c: bytes, d: bytes, p: nat)
    requires FourStrings(data, at) == Got((a, b, c, d), p)
    ensures |a| < 0x8000_0000 && |b| < 0x8000_0000 && |c| < 0x8000_0000 && |d| < 0x8000_0000
    ensures var q := at + |StringBytes(a)|;
            var r := q + |StringBytes(b)|;
            var s := r + |StringBytes(c)|;
            && At(data, at, StringBytes(a)) && At(data, q, StringBytes(b)) && At(data, r, StringBytes(c))
            && At(data, s, StringBytes(d)) && p == s + |StringBytes(d)|
  {
    var q, r, s := FourReads(data, at, a, b, c, d, p);
    StringExactly(data, at, a, q);
    StringExactly(data, q, b, r);
    StringExactly(data, r, c, s);
    StringExactly(data, s, d, p);
  }

  lemma FourReads(data: bytes, at: nat, a: bytes, b: bytes, c: bytes, d: bytes, p: nat)
    returns (q: nat, r: nat, s: nat)
    requires FourStrings(data, at) == Got((a, b, c, d), p)
    ensures JavaString(data, at) == Got(a, q) && JavaString(data, q) == Got(b, r)
    ensures JavaString(data, r) == Got(c, s) && JavaString(data, s) == Got(d, p)
  {
    q := JavaString(data, at).next;
    r := JavaString(data, q).next;
    s := JavaString(data, r).next;
  }

  lemma NumbersBack(data: bytes, at: nat, a: int, b: int, c: int, d: int, p: nat)
    requires FourInts(data, at) == Got((a, b, c, d), p)
    ensures InInt32(a) && InInt32(b) && InInt32(c) && InInt32(d) && p == at + 16
    ensures At(data, at, PutU32(Unsigned(a)) + PutU32(Unsigned(b)) + PutU32(Unsigned(c)) + PutU32(Unsigned(d)))
  {
    IntExactly(data, at, a, at + 4);
    IntExactly(data, at + 4, b, at + 8);
    IntExactly(data, at + 8, c, at + 12);
    IntExactly(data, at + 12, d, at + 16);
    var w, x, y, z := PutU32(Unsigned(a)), PutU32(Unsigned(b)), PutU32(Unsigned(c)), PutU32(Unsigned(d));
    AtJoin(data, at, w, x);
    AtJoin(data, at, w + x, y);
    AtJoin(data, at, w + x + y, z);
  }

  lemma PartsBack(data: bytes, at: nat, s: Server, p: nat) returns (q: nat, r: nat)
    requires JavaServer(data, at) == Got(s, p)
    ensures FourStrings(data, at) == Got((s.id, s.name, s.description, s.host), q)
    ensures FourInts(data, q) == Got((s.port, s.latency, s.playerCount, s.maxPlayers), r)
    ensures JavaString(data, r) == Got(s.version, p)
  {
    q := FourStrings(data, at).next;
    r := FourInts(data, q).next;
  }

  lemma RecordBack(data: bytes, at: nat, s: Server, p: nat)
    requires JavaServer(data, at) == Got(s, p)
    ensures FromJava(s) && At(data, at, ServerBytes(OnWire(s))) && p == at + |ServerBytes(OnWire(s))|
  {
    var q, r := PartsBack(data, at, s, p);
    TextsBack(data, at, s, q);
    NumbersBack(data, q, s.port, s.latency, s.playerCount, s.maxPlayers, r);
    StringExactly(data, r, s.version, p);
    assert TextBytes(OnWire(s)) == TextBytes(s);
    JoinRecord(data, at, OnWire(s));
  }

  lemma JoinRecord(data: bytes, at: nat, s: Server)
    requires At(data, at, TextBytes(s)) && At(data, at + |TextBytes(s)|, NumberBytes(s))
    requires At(data, at + |TextBytes(s)| + |NumberBytes(s)|, StringBytes(s.version))
    ensures At(data, at, ServerBytes(s))
    ensures |ServerBytes(s)| == |TextBytes(s)| + |NumberBytes(s)| + |StringBytes(s.version)|
  {
    AtJoin(data, at, TextBytes(s), NumberBytes(s));
    AtJoin(data, at, TextBytes(s) + NumberBytes(s), StringBytes(s.version));
  }

  function RecordBytes(s: Server): bytes {
    ServerBytes(OnWire(s))
  }

  lemma RecordExactly(data: bytes, at: nat, s: Server, p: nat)
    ensures JavaServer(data, at) == Got(s, p) <==>
            FromJava(s) && At(data, at, RecordBytes(s)) && p == at + |RecordBytes(s)|
  {
    if JavaServer(data, at) == Got(s, p) {
      RecordBack(data, at, s, p);
    }
    if FromJava(s) && At(data, at, RecordBytes(s)) {
      RecordThere(data, at, s);
    }
  }

  lemma RecordThere(data: bytes, at: nat, s: Server)
    requires FromJava(s) && At(data, at, RecordBytes(s))
    ensures JavaServer(data, at) == Got(s, at + |RecordBytes(s)|)
  {
    RecordAt(data, at, OnWire(s), ServerBytes, JavaServer);
    assert SeenByJava(OnWire(s)) == s;
  }

  predicate AllFromJava(servers: seq<Server>) {
    forall i :: 0 <= i < |servers| ==> FromJava(servers[i])
  }

  /** The reader of a record and the bytes it reads, which the proofs about lists need not look into. */
  ghost predicate ReadsBack(one: Reader, record: Server -> bytes) {
    forall data, at: nat, s, p: nat {:trigger one(data, at), Got(s, p)} ::
      one(data, at) == Got(s, p) <==> FromJava(s) && At(data, at, record(s)) && p == at + |record(s)|
  }

  lemma {:induction false} RecordsBack(
    data: bytes, at: nat, servers: seq<Server>, p: nat, one: Reader, record: Server -> bytes)
    requires ReadsBack(one, record) && at <= |data| && ReadMany(one, data, at, |servers|) == Got(servers, p)
    ensures AllFromJava(servers) && At(data, at, ConcatMap(record, servers)) && p == at + |ConcatMap(record, servers)|
    decreases |servers|
  {
    if servers != [] {
      FirstBack(data, at, servers, p, one, record);
      var s := servers[0];
      RecordsBack(data, at + |record(s)|, servers[1..], p, one, record);
      AtJoin(data, at, record(s), ConcatMap(record, servers[1..]));
    }
  }

  lemma FirstBack(data: bytes, at: nat, servers: seq<Server>, p: nat, one: Reader, record: Server -> bytes)
    requires ReadsBack(one, record) && servers != [] && ReadMany(one, data, at, |servers|) == Got(servers, p)
    ensures FromJava(servers[0]) && At(data, at, record(servers[0]))
    ensures ReadMany(one, data, at + |record(servers[0])|, |servers| - 1) == Got(servers[1..], p)
  {
    var first := one(data, at);
    var rest := ReadMany(one, data, first.next, |servers| - 1);
    assert Extend([first.value], rest) == Got([first.value] + rest.value, rest.next);
    assert servers[0] == first.value && servers[1..] == rest.value;
    assert first == Got(servers[0], first.next);
  }

  lemma {:induction false} RecordsThere(
    data: bytes, at: nat, servers: seq<Server>, one: Reader, record: Server -> bytes)
    requires ReadsBack(one, record) && AllFromJava(servers) && At(data, at, ConcatMap(record, servers))
    ensures ReadMany(one, data, at, |servers|) == Got(servers, at + |ConcatMap(record, servers)|)
    decreases |servers|
  {
    if servers != [] {
      var s, rest := servers[0], servers[1..];
      AtSplit(data, at, record(s), ConcatMap(record, rest));
      RecordsThere(data, at + |record(s)|, rest, one, record);
      assert one(data, at) == Got(s, at + |record(s)|);
      assert [s] + rest == servers;
    }
  }

  /** The mod reads a list from a payload exactly if the payload begins with that list. */
  lemma ServerListExactly(data: bytes, servers: seq<Server>)
    ensures JavaServerList(data) == Some(servers) <==>
            && |servers| < 0x8000_0000 && AllFromJava(servers)
            && PutU32(|servers|) + ConcatMap(RecordBytes, servers) <= data
  {
    RecordsRead(JavaServer, RecordBytes);
    ListExactly(data, servers, JavaServer, RecordBytes);
  }

  ghost predicate IsRecordBytes(record: Server -> bytes) {
    forall s {:trigger RecordBytes(s)} :: record(s) == RecordBytes(s)
  }

  lemma RecordsRead(one: Reader, record: Server -> bytes)
    requires IsJavaServer(one) && IsRecordBytes(record)
    ensures ReadsBack(one, record)
  {
    forall data, at: nat, s, p: nat
      ensures one(data, at) == Got(s, p) <==> FromJava(s) && At(data, at, record(s)) && p == at + |record(s)|
    {
      RecordRead(data, at, s, p, one, record);
    }
  }

  lemma RecordRead(data: bytes, at: nat, s: Server, p: nat, one: Reader, record: Server -> bytes)
    requires IsJavaServer(one) && IsRecordBytes(record)
    ensures one(data, at) == Got(s, p) <==> FromJava(s) && At(data, at, record(s)) && p == at + |record(s)|
  {
    RecordExactly(data, at, s, p);
    assert one(data, at) == JavaServer(data, at) && record(s) == RecordBytes(s);
  }

  lemma ListExactly(data: bytes, servers: seq<Server>, one: Reader, record: Server -> bytes)
    requires ReadsBack(one, record)
    ensures ListRead(one, data) == Some(servers) <==>
            && |servers| < 0x8000_0000 && AllFromJava(servers)
            && PutU32(|servers|) + ConcatMap(record, servers) <= data
  {
    if ListRead(one, data) == Some(servers) {
      ListBack(data, servers, one, record);
    }
    if |servers| < 0x8000_0000 && AllFromJava(servers) && PutU32(|servers|) + ConcatMap(record, servers) <= data {
      ListThere(data, servers, one, record);
    }
  }

  lemma ListBack(data: bytes, servers: seq<Server>, one: Reader, record: Server -> bytes)
    requires ReadsBack(one, record) && ListRead(one, data) == Some(servers)
    ensures |servers| < 0x8000_0000 && AllFromJava(servers)
    ensures PutU32(|servers|) + ConcatMap(record, servers) <= data
  {
    CountRead(one, data, servers);
    IntExactly(data, 0, |servers|, 4);
    BehindCount(data, servers, one, record, PutU32(|servers|));
  }

  lemma BehindCount(data: bytes, servers: seq<Server>, one: Reader, record: Server -> bytes, count: bytes)
    requires ReadsBack(one, record) && At(data, 0, count) && |count| == 4
    requires var r := ReadMany(one, data, 4, |servers|); r.Got? && r.value == servers
    ensures AllFromJava(servers) && count + ConcatMap(record, servers) <= data
  {
    RecordsBack(data, 4, servers, ReadMany(one, data, 4, |servers|).next, one, record);
    AtJoin(data, 0, count, ConcatMap(record, servers));
  }

  lemma ListThere(data: bytes, servers: seq<Server>, one: Reader, record: Server -> bytes)
    requires ReadsBack(one, record) && |servers| < 0x8000_0000 && AllFromJava(servers)
    requires PutU32(|servers|) + ConcatMap(record, servers) <= data
    ensures ListRead(one, data) == Some(servers)
  {
    CountThere(data, PutU32(|servers|), ConcatMap(record, servers));
    IntExactly(data, 0, |servers|, 4);
    RecordsThere(data, 4, servers, one, record);
  }

  lemma CountThere(data: bytes, count: bytes, rest: bytes)
    requires count + rest <= data
    ensures At(data, 0, count) && At(data, |count|, rest)
  {
    AtSplit(data, 0, count, rest);
  }

  lemma {:induction false} ManyRead(one: Reader, data: bytes, at: nat, count: nat)
    ensures var r := ReadMany(one, data, at, count); r.Got? ==> |r.value| == count
    decreases count
  {
    if count > 0 && one(data, at).Got? {
      ManyRead(one, data, one(data, at).next, count - 1);
    }
  }

  lemma CountRead(one: Reader, data: bytes, servers: seq<Server>)
    requires ListRead(one, data) == Some(servers)
    ensures JavaInt(data, 0) == Got(|servers|, 4) && ReadMany(one, data, 4, |servers|).Got?
    ensures ReadMany(one, data, 4, |servers|).value == servers
  {
    ManyRead(one, data, 4, JavaInt(data, 0).value);
  }

  /** So a list that was cut anywhere is not read at all. */
  lemma ServerListCut(servers: seq<Server>, n: nat)
    requires ServerListPayload(servers).Some? && |servers| < 0x8000_0000
    requires forall i :: 0 <= i < |servers| ==> ShortStrings(servers[i])
    requires n < |ServerListPayload(servers).value|
    ensures JavaServerList(ServerListPayload(servers).value[..n]) == None
  {
    var data := ServerListPayload(servers).value;
    var cut := JavaServerList(data[..n]);
    if cut.Some? {
      ServerListExactly(data[..n], cut.value);
      ServerListExactly(data, cut.value);
      ServerListSeen(servers);
      SeenOnWire(servers);
      assert false;
    }
  }

  lemma {:induction false} SeenOnWire(servers: seq<Server>)
    requires AllPackable(servers)
    ensures |AllSeen(servers)| == |servers|
    ensures ConcatMap(RecordBytes, AllSeen(servers)) == ConcatMap(ServerBytes, servers)
  {
    if servers != [] {
      assert OnWire(SeenByJava(servers[0])) == servers[0];
      SeenOnWire(servers[1..]);
    }
  }

  function ResponseTail(r: Response): bytes {
    (StringBytes(r.serverId) + StringBytes(r.localHost)) + (PutU32(Unsigned(r.localPort)) + StringBytes(r.message))
  }

  predicate ResponseFromJava(r: Response) {
    |r.serverId| < 0x8000_0000 && |r.localHost| < 0x8000_0000 && |r.message| < 0x8000_0000 && InInt32(r.localPort)
  }

  /** The mod reads a response exactly if the payload begins with it, any byte but 0 standing for success. */
  lemma ResponseExactly(data: bytes, r: Response)
    ensures JavaResponse(data) == Some(r) <==>
            && ResponseFromJava(r) && data != [] && (r.success <==> data[0] != 0) && ResponseTail(r) <= data[1..]
  {
    if JavaResponse(data) == Some(r) {
      ResponseBack(data, r);
      AtPrefix(data, 1, ResponseTail(r));
    }
    if ResponseFromJava(r) && data != [] && (r.success <==> data[0] != 0) && ResponseTail(r) <= data[1..] {
      AtPrefix(data, 1, ResponseTail(r));
      ResponseThere(data, r);
    }
  }

  lemma AtPrefix(data: bytes, pos: nat, piece: bytes)
    requires pos <= |data|
    ensures At(data, pos, piece) <==> piece <= data[pos..]
  {
    if pos + |piece| <= |data| {
      assert data[pos..][..|piece|] == data[pos..pos + |piece|];
    }
  }

  lemma ResponseThere(data: bytes, r: Response)
    requires ResponseFromJava(r) && data != [] && (r.success <==> data[0] != 0) && At(data, 1, ResponseTail(r))
    ensures JavaResponse(data) == Some(r)
  {
    AtSplit(data, 1, StringBytes(r.serverId) + StringBytes(r.localHost),
            PutU32(Unsigned(r.localPort)) + StringBytes(r.message));
    ResponseRead(data, r.(localPort := Unsigned(r.localPort)));
  }

  lemma ResponseBack(data: bytes, r: Response)
    requires JavaResponse(data) == Some(r)
    ensures ResponseFromJava(r) && data != [] && (r.success <==> data[0] != 0) && At(data, 1, ResponseTail(r))
  {
    var a, b, c, d := ResponseReads(data, r);
    TwoStringsBack(data, 1, r.serverId, a, r.localHost, b);
    IntStringBack(data, b, r.localPort, c, r.message, d);
    AtJoin(data, 1, StringBytes(r.serverId) + StringBytes(r.localHost),
           PutU32(Unsigned(r.localPort)) + StringBytes(r.message));
  }

  lemma TwoStringsBack(data: bytes, at: nat, s: bytes, p: nat, t: bytes, q: nat)
    requires JavaString(data, at) == Got(s, p) && JavaString(data, p) == Got(t, q)
    ensures |s| < 0x8000_0000 && |t| < 0x8000_0000
    ensures At(data, at, StringBytes(s) + StringBytes(t)) && q == at + |StringBytes(s) + StringBytes(t)|
  {
    StringExactly(data, at, s, p);
    StringExactly(data, p, t, q);
    AtJoin(data, at, StringBytes(s), StringBytes(t));
  }

  lemma IntStringBack(data: bytes, at: nat, v: int, p: nat, t: bytes, q: nat)
    requires JavaInt(data, at) == Got(v, p) && JavaString(data, p) == Got(t, q)
    ensures InInt32(v) && |t| < 0x8000_0000 && At(data, at, PutU32(Unsigned(v)) + StringBytes(t))
  {
    IntExactly(data, at, v, p);
    StringExactly(data, p, t, q);
    AtJoin(data, at, PutU32(Unsigned(v)), StringBytes(t));
  }

  lemma ResponseReads(data: bytes, r: Response) returns (a: nat, b: nat, c: nat, d: nat)
    requires JavaResponse(data) == Some(r)
    ensures data != [] && (r.success <==> data[0] != 0)
    ensures JavaString(data, 1) == Got(r.serverId, a) && JavaString(data, a) == Got(r.localHost, b)
    ensures JavaInt(data, b) == Got(r.localPort, c) && JavaString(data, c) == Got(r.message, d)
  {
    a := JavaString(data, 1).next;
    b := JavaString(data, a).next;
    c := JavaInt(data, b).next;
    d := JavaString(data, c).next;
  }

  /**
   * The mod gets through a packet exactly if it begins with a list, with a response (and the game takes over the
   * connection of a successful one), or with a message; every other kind has no payload to read.
   */
  lemma HandledExactly(accepted: bool, f: Frame)
    ensures JavaHandles(accepted)(f) <==>
            && (f.kind == 0x03 ==>
                  exists servers :: AllFromJava(servers) && |servers| < 0x8000_0000
                                    && PutU32(|servers|) + ConcatMap(RecordBytes, servers) <= f.payload)
            && (f.kind == 0x05 ==>
                  exists r :: ResponseFromJava(r) && f.payload != [] && (r.success <==> f.payload[0] != 0)
                              && ResponseTail(r) <= f.payload[1..] && (r.success ==> accepted))
            && (f.kind == 0x07 ==> exists s :: |s| < 0x8000_0000 && StringBytes(s) <= f.payload)
  {
    if f.kind == 0x03 {
      ListHandled(f.payload);
    } else if f.kind == 0x05 {
      ResponseIsHandled(f.payload, accepted);
    } else if f.kind == 0x07 {
      MessageHandled(f.payload);
    }
  }

  lemma ListHandled(data: bytes)
    ensures JavaServerList(data).Some? <==>
            exists servers :: AllFromJava(servers) && |servers| < 0x8000_0000
                              && PutU32(|servers|) + ConcatMap(RecordBytes, servers) <= data
  {
    if JavaServerList(data).Some? {
      ServerListExactly(data, JavaServerList(data).value);
    }
    forall servers | AllFromJava(servers) && |servers| < 0x8000_0000 &&
      PutU32(|servers|) + ConcatMap(RecordBytes, servers) <= data
      ensures JavaServerList(data) == Some(servers)
    {
      ServerListExactly(data, servers);
    }
  }

  lemma ResponseIsHandled(data: bytes, accepted: bool)
    ensures (JavaResponse(data).Some? && (!JavaResponse(data).value.success || accepted)) <==>
            exists r :: ResponseFromJava(r) && data != [] && (r.success <==> data[0] != 0)
                        && ResponseTail(r) <= data[1..] && (r.success ==> accepted)
  {
    if JavaResponse(data).Some? {
      ResponseExactly(data, JavaResponse(data).value);
    }
    forall r | ResponseFromJava(r) && data != [] && (r.success <==> data[0] != 0) && ResponseTail(r) <= data[1..]
      ensures JavaResponse(data) == Some(r)
    {
      ResponseExactly(data, r);
    }
  }

  lemma MessageHandled(data: bytes)
    ensures JavaString(data, 0).Got? <==> exists s :: |s| < 0x8000_0000 && StringBytes(s) <= data
  {
    if JavaString(data, 0).Got? {
      var s := JavaString(data, 0).value;
      StringExactly(data, 0, s, JavaString(data, 0).next);
      AtPrefix(data, 0, StringBytes(s));
    }
    forall s | |s| < 0x8000_0000 && StringBytes(s) <= data
      ensures JavaString(data, 0).Got?
    {
      AtPrefix(data, 0, StringBytes(s));
      StringExactly(data, 0, s, |StringBytes(s)|);
    }
  }

  // ---------------------------------------------------------------- Python

  lemma PyStringBack(data: bytes, at: nat, s: bytes, p: nat)
    requires PyString(data, at) == Got(s, p) && p <= |data|
    ensures InU32(|s|) && IsText(s) && At(data, at, StringBytes(s)) && p == at + |StringBytes(s)|
  {
    U32Back(data[at..at + 4]);
    AtJoin(data, at, PutU32(|s|), s);
  }

  /** The server reads a connect request exactly if the payload begins with it. */
  lemma ConnectRequestExactly(data: bytes, serverId: bytes, host: bytes, port: nat, p: nat)
    ensures ParseConnectRequest(data) == Got((serverId, host, port), p) <==>
            && InU32(|serverId|) && InU32(|host|) && InU32(port) && IsText(serverId) && IsText(host)
            && p == 4 + |serverId| + 4 + |host| + 4
            && At(data, 0, StringBytes(serverId) + StringBytes(host) + PutU32(port))
  {
    var a := |StringBytes(serverId)|;
    var b := a + |StringBytes(host)|;
    if ParseConnectRequest(data) == Got((serverId, host, port), p) {
      RequestBack(data, serverId, host, port, p);
    }
    if InU32(|serverId|) && InU32(|host|) && InU32(port) && IsText(serverId) && IsText(host) &&
      At(data, 0, StringBytes(serverId) + StringBytes(host) + PutU32(port)) {
      AtSplit3(data, 0, StringBytes(serverId), StringBytes(host), PutU32(port));
      PyStringAt(data, 0, serverId);
      PyStringAt(data, a, host);
      PyIntAt(data, b, port);
      ConnectRequestChain(data, serverId, a, host, b, port, b + 4);
    }
  }

  lemma RequestBack(data: bytes, serverId: bytes, host: bytes, port: nat, p: nat)
    requires ParseConnectRequest(data) == Got((serverId, host, port), p)
    ensures InU32(|serverId|) && InU32(|host|) && InU32(port) && IsText(serverId) && IsText(host)
    ensures p == 4 + |serverId| + 4 + |host| + 4
    ensures At(data, 0, StringBytes(serverId) + StringBytes(host) + PutU32(port))
  {
    var a, b := RequestReads(data, serverId, host, port, p);
    PyStringBack(data, 0, serverId, a);
    PyStringBack(data, a, host, b);
    AtJoin(data, 0, StringBytes(serverId), StringBytes(host));
    PyIntBack(data, b, port, p);
    AtJoin(data, 0, StringBytes(serverId) + StringBytes(host), PutU32(port));
  }

  lemma PyIntBack(data: bytes, at: nat, v: nat, p: nat)
    requires PyInt(data, at) == Got(v, p)
    ensures InU32(v) && At(data, at, PutU32(v)) && p == at + 4
  {
    U32Back(data[at..at + 4]);
  }

  lemma RequestReads(data: bytes, serverId: bytes, host: bytes, port: nat, p: nat) returns (a: nat, b: nat)
    requires ParseConnectRequest(data) == Got((serverId, host, port), p)
    ensures PyString(data, 0) == Got(serverId, a) && PyString(data, a) == Got(host, b) && PyInt(data, b) == Got(port, p)
    ensures a <= b <= |data|
  {
    a := PyString(data, 0).next;
    b := PyString(data, a).next;
  }

  /** What is read of a string that stands at `at` in a payload of which only the first n bytes are there. */
  function StringThere(s: bytes, n: nat, at: nat): Read<bytes> {
    if n < at + 4 then Raised
    else
      var there := if n - at - 4 < |s| then s[..n - at - 4] else s;
      if IsText(there) then Got(there, at + 4 + |s|) else Raised
  }

  lemma PyStringCut(data: bytes, n: nat, at: nat, s: bytes)
    requires n <= |data| && InU32(|s|) && At(data, at, StringBytes(s))
    ensures PyString(data[..n], at) == StringThere(s, n, at)
  {
    if n >= at + 4 {
      PieceCut(data, n, at, s);
      PySlice(data[..n], at, |s|, at + 4, if n - at - 4 < |s| then s[..n - at - 4] else s);
    }
  }

  lemma PieceCut(data: bytes, n: nat, at: nat, s: bytes)
    requires at + 4 <= n <= |data| && InU32(|s|) && At(data, at, StringBytes(s))
    ensures PyInt(data[..n], at) == Got(|s|, at + 4)
    ensures Slice(data[..n], at + 4, at + 4 + |s|) == if n - at - 4 < |s| then s[..n - at - 4] else s
  {
    AtSplit(data, at, PutU32(|s|), s);
    assert data[..n][at..at + 4] == data[at..at + 4] == PutU32(|s|);
    PyIntAt(data[..n], at, |s|);
    SliceCut(data, n, at + 4, s);
  }

  lemma SliceCut(data: bytes, n: nat, at: nat, s: bytes)
    requires at <= n <= |data| && At(data, at, s)
    ensures Slice(data[..n], at, at + |s|) == if n - at < |s| then s[..n - at] else s
  {
    var there := if n - at < |s| then s[..n - at] else s;
    assert there == data[at..at + |s|][..|there|] == data[..n][at..at + |there|];
  }

  /**
   * A handshake of which only n bytes are there. What is cut off behind the length of the name goes unnoticed,
   * unless the cut falls inside a character; any other cut fails, and the fields keep what was read, the string that
   * was cut included.
   */
  lemma HandshakeOnPrefix(p: Peer, modVersion: int, mcVersion: bytes, uuid: bytes, name: bytes, n: nat)
    requires InInt32(modVersion)
    requires |mcVersion| < 0x8000_0000 && |uuid| < 0x8000_0000 && |name| < 0x8000_0000
    requires IsText(mcVersion) && IsText(uuid) && IsText(name)
    requires n <= |HandshakePayload(modVersion, mcVersion, uuid, name)|
    ensures var c, d := 12 + |mcVersion|, 16 + |mcVersion| + |uuid|;
            var word := if modVersion >= 0 then modVersion else modVersion + 0x1_0000_0000;
            AfterHandshake(p, HandshakePayload(modVersion, mcVersion, uuid, name)[..n]) ==
            if n < 4 then (p, false)
            else if n < 8 then (p.(protocolVersion := 1), false)
            else if n < 12 then (p.(protocolVersion := 1, modVersion := word), false)
            else if n < c + 4 then
              var there := if n < c then mcVersion[..n - 12] else mcVersion;
              (Peer(1, word, if IsText(there) then there else p.mcVersion, p.playerUuid, p.playerName), false)
            else if n < d + 4 then
              var there := if n < d then uuid[..n - c - 4] else uuid;
              (Peer(1, word, mcVersion, if IsText(there) then there else p.playerUuid, p.playerName), false)
            else
              var there := name[..n - d - 4];
              (Peer(1, word, mcVersion, uuid, if IsText(there) then there else p.playerName), IsText(there))
  {
    var data := HandshakePayload(modVersion, mcVersion, uuid, name);
    HandshakeInts(data, modVersion, mcVersion, uuid, name);
    HandshakeSize(modVersion, mcVersion, uuid, name);
    StringsAt(data, mcVersion, uuid, name);
    HandshakeCut(p, data, n, Unsigned(modVersion), 12 + |mcVersion|, 16 + |mcVersion| + |uuid|, mcVersion, uuid, name);
    FieldsThere(mcVersion, uuid, name, n);
  }

  lemma HandshakeSize(modVersion: int, mcVersion: bytes, uuid: bytes, name: bytes)
    requires InInt32(modVersion)
    ensures |HandshakePayload(modVersion, mcVersion, uuid, name)| == 20 + |mcVersion| + |uuid| + |name|
  {
  }

  lemma HandshakeCut(
    p: Peer, data: bytes, n: nat, word: nat, c: nat, d: nat, mcVersion: bytes, uuid: bytes, name: bytes)
    requires n <= |data| && PyInt(data, 0) == Got(1, 4) && PyInt(data, 4) == Got(word, 8)
    requires |mcVersion| < 0x8000_0000 && |uuid| < 0x8000_0000 && |name| < 0x8000_0000
    requires At(data, 8, StringBytes(mcVersion)) && At(data, c, StringBytes(uuid)) && At(data, d, StringBytes(name))
    requires c == 12 + |mcVersion| && d == c + 4 + |uuid|
    ensures AfterHandshake(p, data[..n]) ==
            if n < 4 then (p, false)
            else if n < 8 then (p.(protocolVersion := 1), false)
            else
              var first, second := StringThere(mcVersion, n, 8), StringThere(uuid, n, c);
              var third := StringThere(name, n, d);
              if first.Raised? then (Peer(1, word, p.mcVersion, p.playerUuid, p.playerName), false)
              else if second.Raised? then (Peer(1, word, first.value, p.playerUuid, p.playerName), false)
              else if third.Raised? then (Peer(1, word, first.value, second.value, p.playerName), false)
              else (Peer(1, word, first.value, second.value, third.value), true)
  {
    IntsCut(data, n, word);
    if n >= 8 {
      HandshakeReads(data, n, c, d, mcVersion, uuid, name);
      StringsCut(p, data[..n], word,
                 StringThere(mcVersion, n, 8), StringThere(uuid, n, c), StringThere(name, n, d), c, d);
    }
  }

  lemma FieldsThere(mcVersion: bytes, uuid: bytes, name: bytes, n: nat)
    requires IsText(mcVersion) && IsText(uuid) && n <= 20 + |mcVersion| + |uuid| + |name|
    ensures var c, d := 12 + |mcVersion|, 16 + |mcVersion| + |uuid|;
            && (n < 12 ==> StringThere(mcVersion, n, 8).Raised?)
            && (12 <= n < c ==>
                  StringThere(mcVersion, n, 8) ==
                  if IsText(mcVersion[..n - 12]) then Got(mcVersion[..n - 12], c) else Raised)
            && (c <= n ==> StringThere(mcVersion, n, 8) == Got(mcVersion, c))
            && (n < c + 4 ==> StringThere(uuid, n, c).Raised?)
            && (c + 4 <= n < d ==>
                  StringThere(uuid, n, c) == if IsText(uuid[..n - c - 4]) then Got(uuid[..n - c - 4], d) else Raised)
            && (d <= n ==> StringThere(uuid, n, c) == Got(uuid, d))
            && (n < d + 4 ==> StringThere(name, n, d).Raised?)
            && (d + 4 <= n ==>
                  StringThere(name, n, d) ==
                  if IsText(name[..n - d - 4]) then Got(name[..n - d - 4], d + 4 + |name|) else Raised)
  {
    assert name[..|name|] == name;
  }

  lemma HandshakeReads(data: bytes, n: nat, c: nat, d: nat, mcVersion: bytes, uuid: bytes, name: bytes)
    requires |mcVersion| < 0x8000_0000 && |uuid| < 0x8000_0000 && |name| < 0x8000_0000 && n <= |data|
    requires At(data, 8, StringBytes(mcVersion)) && At(data, c, StringBytes(uuid)) && At(data, d, StringBytes(name))
    ensures PyString(data[..n], 8) == StringThere(mcVersion, n, 8)
    ensures PyString(data[..n], c) == StringThere(uuid, n, c)
    ensures PyString(data[..n], d) == StringThere(name, n, d)
  {
    PyStringCut(data, n, 8, mcVersion);
    PyStringCut(data, n, c, uuid);
    PyStringCut(data, n, d, name);
  }

  lemma StringsAt(data: bytes, a: bytes, b: bytes, c: bytes)
    requires At(data, 8, StringBytes(a) + StringBytes(b) + StringBytes(c))
    ensures At(data, 8, StringBytes(a)) && At(data, 12 + |a|, StringBytes(b))
    ensures At(data, 16 + |a| + |b|, StringBytes(c))
  {
    AtSplit3(data, 8, StringBytes(a), StringBytes(b), StringBytes(c));
  }

  lemma IntsCut(data: bytes, n: nat, word: nat)
    requires n <= |data| && PyInt(data, 0) == Got(1, 4) && PyInt(data, 4) == Got(word, 8)
    ensures PyInt(data[..n], 0) == if n < 4 then Raised else Got(1, 4)
    ensures PyInt(data[..n], 4) == if n < 8 then Raised else Got(word, 8)
  {
    assert n >= 4 ==> data[..n][0..4] == data[0..4];
    assert n >= 8 ==> data[..n][4..8] == data[4..8];
  }

  /** The three strings, whatever each read gives. */
  lemma StringsCut(
    p: Peer, data: bytes, word: nat, mcVersion: Read<bytes>, uuid: Read<bytes>, name: Read<bytes>, c: nat, d: nat)
    requires PyInt(data, 0) == Got(1, 4) && PyInt(data, 4) == Got(word, 8)
    requires PyString(data, 8) == mcVersion && PyString(data, c) == uuid && PyString(data, d) == name
    requires mcVersion.Got? ==> mcVersion.next == c
    requires uuid.Got? ==> uuid.next == d
    ensures AfterHandshake(p, data) ==
            if mcVersion.Raised? then (Peer(1, word, p.mcVersion, p.playerUuid, p.playerName), false)
            else if uuid.Raised? then (Peer(1, word, mcVersion.value, p.playerUuid, p.playerName), false)
            else if name.Raised? then (Peer(1, word, mcVersion.value, uuid.value, p.playerName), false)
            else (Peer(1, word, mcVersion.value, uuid.value, name.value), true)
  {
  }
}
