/** The peers of a P2P connection and the separate index of who is connected. */
module PeerTable {
  import opened Bytes
  import opened PyDict
  import opened HolePunch
  import opened FastLinkPacket

  datatype Node = Node(
    nodeId: string, externalIp: string, externalPort: nat, lastSeen: real, latencyMs: int, connected: bool)

  /** Names one `NodeInfo` object; the hole puncher may still hold one that the table no longer does. */
  type RecordId = nat

  /** `told` is the ids the disconnect handlers were called with so far. */
  datatype Table = Table(
    peers: Dict<string, RecordId>, records: map<RecordId, Node>, connected: map<string, bool>, told: seq<string>)

  const EMPTY := Table(Empty(), map[], map[], [])

  predicate Marked(t: Table, n: string) {
    n in t.connected && t.connected[n]
  }

  /** The guard of `send`. */
  predicate CanSend(t: Table, n: string) {
    n in t.peers.entries && t.peers.entries[n] in t.records && t.records[t.peers.entries[n]].connected
  }

  function Update(t: Table, r: RecordId, node: Node): Table {
    t.(records := t.records[r := node])
  }

  /** The record goes in under its own id and replaces the one that was there; the index is not touched. */
  function AfterConnect(t: Table, r: RecordId, node: Node): Table {
    t.(peers := Put(t.peers, node.nodeId, r), records := t.records[r := node])
  }

  /** The hole puncher's update of the record it was started with. */
  function AfterPunchSuccess(t: Table, r: RecordId, reply: Reply): Table {
    if r in t.records then
      Update(t, r, t.records[r].(externalIp := reply.ip, externalPort := reply.port, connected := true))
    else t
  }

  function AfterHandshake(t: Table, n: string, now: real): Table {
    if n in t.peers.entries && t.peers.entries[n] in t.records then
      var r := t.peers.entries[n];
      Update(t, r, t.records[r].(connected := true, lastSeen := now)).(connected := t.connected[n := true])
    else t
  }

  function AfterHeartbeat(t: Table, n: string, now: real, latency: int): Table {
    if n in t.peers.entries && t.peers.entries[n] in t.records then
      var r := t.peers.entries[n];
      Update(t, r, t.records[r].(lastSeen := now, latencyMs := latency))
    else t
  }

  function Drop(t: Table, n: string): Table {
    if n in t.peers.entries && t.peers.entries[n] in t.records then
      var r := t.peers.entries[n];
      Update(t, r, t.records[r].(connected := false)).(connected := t.connected[n := false], told := t.told + [n])
    else t
  }

  predicate HasAddress(t: Table, n: string, ip: string, port: nat) {
    && n in t.peers.entries && t.peers.entries[n] in t.records
    && t.records[t.peers.entries[n]].externalIp == ip && t.records[t.peers.entries[n]].externalPort == port
  }

  /** The first peer from place `k` on, in the order of the table, with this external address. */
  function FindFrom(t: Table, k: nat, ip: string, port: nat): Option<string>
    decreases |t.peers.order| - k
  {
    if k >= |t.peers.order| then None
    else if HasAddress(t, t.peers.order[k], ip, port) then Some(t.peers.order[k])
    else FindFrom(t, k + 1, ip, port)
  }

  function AfterDisconnect(t: Table, ip: string, port: nat): Table {
    match FindFrom(t, 0, ip, port)
    case None => t
    case Some(n) => Drop(t, n)
  }

  const HEARTBEAT_TIMEOUT: real := 15.0

  predicate TimedOut(t: Table, n: string, now: real) {
    CanSend(t, n) && now - t.records[t.peers.entries[n]].lastSeen > HEARTBEAT_TIMEOUT
  }

  /** `_check_stale_peers` over the first `k` peers. */
  function AfterCheck(t: Table, k: nat, now: real): Table
    requires k <= |t.peers.order|
  {
    if k == 0 then t
    else
      var u := AfterCheck(t, k - 1, now);
      if TimedOut(u, t.peers.order[k - 1], now) then Drop(u, t.peers.order[k - 1]) else u
  }

  /** The header of a heartbeat packet, before `encode` stamps it. */
  const HEARTBEAT := Header(0x0200, 0x02, 0, 0, 0, 0)

  /** The peer at place `k` is connected, and the heartbeat for it cannot be encoded at this clock. */
  predicate Refused(t: Table, k: nat, texts: nat -> bytes, clocks: nat -> int)
    requires k < |t.peers.order|
  {
    CanSend(t, t.peers.order[k]) && !Sendable(HEARTBEAT, texts(k), clocks(k))
  }

  predicate AnyRefused(t: Table, texts: nat -> bytes, clocks: nat -> int) {
    exists k :: 0 <= k < |t.peers.order| && Refused(t, k, texts, clocks)
  }

  /** The heartbeat that goes out: version, type 0x02, sequence number 0 and its text. */
  lemma HeartbeatPacket(text: bytes, clock: int)
    requires InU32(clock) && |text| < 0x1_0000_0000
    ensures var w := Wire(HEARTBEAT, text, clock);
            && w.Some? && |w.value| == 24 + |text| && BigEndian(w.value[4..6]) == 0x0200
            && BigEndian(w.value[6..8]) == 0x02 && BigEndian(w.value[8..12]) == 0 && w.value[24..] == text
  {
    WireLayout(HEARTBEAT, text, clock);
  }

  /** One turn of `_heartbeat_loop`: an exception out of a heartbeat skips the stale check. */
  function AfterRound(t: Table, texts: nat -> bytes, clocks: nat -> int, now: real): Table {
    if AnyRefused(t, texts, clocks) then t else AfterCheck(t, |t.peers.order|, now)
  }

  datatype Label =
    | Connect(record: RecordId, node: Node)
    | PunchSuccess(record: RecordId, reply: Reply)
    | Handshake(id: string, now: real)
    | Heartbeat(id: string, now: real, latency: int)
    | Disconnect(ip: string, port: nat)
    | Round(texts: nat -> bytes, clocks: nat -> int, now: real)

  function Next(t: Table, l: Label): Table {
    match l
    case Connect(r, node) => AfterConnect(t, r, node)
    case PunchSuccess(r, reply) => AfterPunchSuccess(t, r, reply)
    case Handshake(n, now) => AfterHandshake(t, n, now)
    case Heartbeat(n, now, latency) => AfterHeartbeat(t, n, now, latency)
    case Disconnect(ip, port) => AfterDisconnect(t, ip, port)
    case Round(texts, clocks, now) => AfterRound(t, texts, clocks, now)
  }

  // ---------------------------------------------------------------- the index against the table

  /** Every peer's record is known and lies under its own id. */
  ghost predicate Keyed(t: Table) {
    forall n :: n in t.peers.entries ==>
      t.peers.entries[n] in t.records && t.records[t.peers.entries[n]].nodeId == n
  }

  /** Whoever the index lists as connected passes the guard of `send`. */
  ghost predicate Linked(t: Table) {
    forall n :: Marked(t, n) ==> CanSend(t, n)
  }

  /** A record that is passed in again is passed in as it is. */
  ghost predicate Possible(t: Table, l: Label) {
    l.Connect? && l.record in t.records ==> l.node == t.records[l.record]
  }

  /** The one unguarded case: connecting a fresh record for an id that is still marked. */
  predicate Orderly(t: Table, l: Label) {
    l.Connect? ==> l.node.connected || !Marked(t, l.node.nodeId)
  }

  lemma ConnectExactly(t: Table, r: RecordId, node: Node)
    requires Keyed(t) && (r in t.records ==> node == t.records[r])
    ensures Keyed(AfterConnect(t, r, node))
    ensures forall n :: CanSend(AfterConnect(t, r, node), n) <==>
                        if n == node.nodeId then node.connected else CanSend(t, n)
    ensures Linked(t) ==> (Linked(AfterConnect(t, r, node)) <==> node.connected || !Marked(t, node.nodeId))
  {
    var u := AfterConnect(t, r, node);
    assert forall n :: Marked(u, n) <==> Marked(t, n);
    assert forall n :: n != node.nodeId ==> (CanSend(u, n) <==> CanSend(t, n));
    assert CanSend(u, node.nodeId) <==> node.connected;
  }

  lemma UpdateKeeps(t: Table, r: RecordId, node: Node)
    requires Keyed(t) && r in t.records && node.nodeId == t.records[r].nodeId
    requires t.records[r].connected ==> node.connected
    ensures Keyed(Update(t, r, node)) && (Linked(t) ==> Linked(Update(t, r, node)))
    ensures forall n :: CanSend(t, n) ==> CanSend(Update(t, r, node), n)
  {
    var u := Update(t, r, node);
    assert forall n :: Marked(u, n) <==> Marked(t, n);
    assert forall n :: CanSend(t, n) ==> CanSend(u, n);
  }

  lemma HandshakeKeeps(t: Table, n: string, now: real)
    requires Keyed(t)
    ensures Keyed(AfterHandshake(t, n, now)) && (Linked(t) ==> Linked(AfterHandshake(t, n, now)))
    ensures forall m :: CanSend(t, m) ==> CanSend(AfterHandshake(t, n, now), m)
  {
    var u := AfterHandshake(t, n, now);
    assert forall m :: Marked(u, m) ==> Marked(t, m) || m == n;
    assert forall m :: CanSend(t, m) ==> CanSend(u, m);
  }

  /** Dropping one peer changes nothing about the others. */
  lemma DropExactly(t: Table, n: string)
    requires Keyed(t) && n in t.peers.entries
    ensures var u := Drop(t, n);
            && Keyed(u) && u.peers == t.peers && u.told == t.told + [n]
            && (forall m :: CanSend(u, m) <==> CanSend(t, m) && m != n)
            && (forall m :: Marked(u, m) <==> Marked(t, m) && m != n)
            && (forall m, now :: TimedOut(u, m, now) <==> TimedOut(t, m, now) && m != n)
  {
    var u := Drop(t, n);
    assert forall m :: CanSend(u, m) <==> CanSend(t, m) && m != n;
    assert forall m :: Marked(u, m) <==> Marked(t, m) && m != n;
  }

  lemma {:induction false} FindsFirst(t: Table, k: nat, ip: string, port: nat)
    requires Keyed(t)
    ensures match FindFrom(t, k, ip, port)
            case None => forall i :: k <= i < |t.peers.order| ==> !HasAddress(t, t.peers.order[i], ip, port)
            case Some(n) =>
              HasAddress(t, n, ip, port) &&
              (exists i :: k <= i < |t.peers.order| && t.peers.order[i] == n &&
                           (forall j :: k <= j < i ==> !HasAddress(t, t.peers.order[j], ip, port)))
    decreases |t.peers.order| - k
  {
    if k < |t.peers.order| && !HasAddress(t, t.peers.order[k], ip, port) {
      FindsFirst(t, k + 1, ip, port);
    }
  }

  /** The peer at place k is the first whose record has this external address. */
  ghost predicate FirstAt(t: Table, k: int, ip: string, port: nat) {
    && 0 <= k < |t.peers.order| && AtAddress(t, t.peers.order[k], ip, port)
    && forall j :: 0 <= j < k ==> !AtAddress(t, t.peers.order[j], ip, port)
  }

  ghost predicate AtAddress(t: Table, n: string, ip: string, port: nat) {
    && n in t.peers.entries && t.peers.entries[n] in t.records
    && var node := t.records[t.peers.entries[n]]; node.externalIp == ip && node.externalPort == port
  }

  /**
   * A disconnect packet ends the first peer at its address, in the order of the table, tells of it and ends no other,
   * even one at the same address; without a peer there it does nothing.
   */
  lemma DisconnectExactly(t: Table, ip: string, port: nat)
    requires Keyed(t)
    ensures Keyed(AfterDisconnect(t, ip, port)) && (Linked(t) ==> Linked(AfterDisconnect(t, ip, port)))
    ensures (forall k :: !FirstAt(t, k, ip, port)) ==> AfterDisconnect(t, ip, port) == t
    ensures FindFrom(t, 0, ip, port).Some? ==> exists k :: FirstAt(t, k, ip, port)
    ensures forall k :: FirstAt(t, k, ip, port) ==>
              var u, n := AfterDisconnect(t, ip, port), t.peers.order[k];
              && FindFrom(t, 0, ip, port) == Some(n)
              && u.told == t.told + [n] && u.peers == t.peers && !Marked(u, n)
              && (forall m :: CanSend(u, m) <==> CanSend(t, m) && m != n)
              && (forall m :: m != n ==> (Marked(u, m) <==> Marked(t, m)))
  {
    FindsFirst(t, 0, ip, port);
    match FindFrom(t, 0, ip, port)
    case None =>
      assert forall k :: 0 <= k < |t.peers.order| ==> !HasAddress(t, t.peers.order[k], ip, port);
    case Some(n) =>
      DropExactly(t, n);
      var i :| 0 <= i < |t.peers.order| && t.peers.order[i] == n &&
               forall j :: 0 <= j < i ==> !HasAddress(t, t.peers.order[j], ip, port);
      assert FirstAt(t, i, ip, port);
      assert forall k :: FirstAt(t, k, ip, port) ==> k == i;
  }

  /** The ids among these that have timed out, in the same order. */
  function Expired(t: Table, ns: seq<string>, now: real): seq<string> {
    if ns == [] then []
    else
      var n, before := ns[|ns| - 1], Expired(t, ns[..|ns| - 1], now);
      if TimedOut(t, n, now) then before + [n] else before
  }

  /**
   * A check of the first `k` peers drops those that timed out and nobody else, and tells of each of them once, in
   * order.
   */
  lemma {:induction false} CheckExactly(t: Table, k: nat, now: real)
    requires Keyed(t) && k <= |t.peers.order|
    ensures var u, checked := AfterCheck(t, k, now), t.peers.order[..k];
            && Keyed(u) && u.peers == t.peers && u.told == t.told + Expired(t, checked, now)
            && (forall m :: CanSend(u, m) <==> CanSend(t, m) && !(m in checked && TimedOut(t, m, now)))
            && (forall m :: Marked(u, m) <==> Marked(t, m) && !(m in checked && TimedOut(t, m, now)))
            && (forall m :: TimedOut(u, m, now) <==> TimedOut(t, m, now) && m !in checked)
  {
    if k > 0 {
      CheckExactly(t, k - 1, now);
      var n, u := t.peers.order[k - 1], AfterCheck(t, k - 1, now);
      assert n in t.peers.order;
      TakeSnoc(t.peers.order, k - 1);
      assert t.peers.order[..k][..k - 1] == t.peers.order[..k - 1];
      var expired := Expired(t, t.peers.order[..k - 1], now);
      assert t.told + expired + [n] == t.told + (expired + [n]);
      if TimedOut(u, n, now) {
        DropExactly(u, n);
      }
    }
  }

  /** After a stale check exactly the peers seen within 15 seconds are left, and the index is as sound as before. */
  lemma AfterStaleCheck(t: Table, now: real)
    requires Keyed(t)
    ensures var u := AfterCheck(t, |t.peers.order|, now);
            && Keyed(u) && (Linked(t) ==> Linked(u)) && u.told == t.told + Expired(t, t.peers.order, now)
            && (forall n :: CanSend(u, n) <==>
                  CanSend(t, n) && now - t.records[t.peers.entries[n]].lastSeen <= 15.0)
            && (forall n :: CanSend(u, n) ==> now - u.records[u.peers.entries[n]].lastSeen <= 15.0)
  {
    CheckExactly(t, |t.peers.order|, now);
    assert t.peers.order[..|t.peers.order|] == t.peers.order;
    assert forall n :: n in t.peers.entries ==> n in t.peers.order;
  }

  /**
   * A turn of the heartbeat loop leaves no peer that timed out exactly if there was none or no heartbeat was
   * refused.
   */
  lemma RoundExactly(t: Table, texts: nat -> bytes, clocks: nat -> int, now: real)
    requires Keyed(t)
    ensures var u := AfterRound(t, texts, clocks, now);
            (forall n :: !TimedOut(u, n, now)) <==>
            || (forall n :: !TimedOut(t, n, now))
            || (forall k :: 0 <= k < |t.peers.order| && CanSend(t, t.peers.order[k]) ==>
                  0 <= clocks(k) < 0x1_0000_0000 && |texts(k)| < 0x1_0000_0000)
  {
    var u := AfterRound(t, texts, clocks, now);
    assert forall k :: 0 <= k < |t.peers.order| ==>
      (Refused(t, k, texts, clocks) <==>
       CanSend(t, t.peers.order[k]) && !(0 <= clocks(k) < 0x1_0000_0000 && |texts(k)| < 0x1_0000_0000));
    if AnyRefused(t, texts, clocks) {
      assert u == t;
    } else {
      CheckExactly(t, |t.peers.order|, now);
      assert t.peers.order[..|t.peers.order|] == t.peers.order;
      forall n ensures !TimedOut(u, n, now) {
        assert TimedOut(t, n, now) ==> n in t.peers.order;
      }
    }
  }

  lemma RoundKeeps(t: Table, texts: nat -> bytes, clocks: nat -> int, now: real)
    requires Keyed(t)
    ensures var u := AfterRound(t, texts, clocks, now); Keyed(u) && (Linked(t) ==> Linked(u))
  {
    AfterStaleCheck(t, now);
  }

  /** With clocks that do not fit, as today's do not, a turn of the heartbeat loop drops nobody. */
  lemma RoundDropsNobody(t: Table, texts: nat -> bytes, clocks: nat -> int, now: real)
    requires Keyed(t) && forall k :: clocks(k) >= 0x1_0000_0000
    ensures forall n :: CanSend(AfterRound(t, texts, clocks, now), n) <==> CanSend(t, n)
  {
    if !AnyRefused(t, texts, clocks) {
      AfterStaleCheck(t, now);
      forall n ensures !CanSend(t, n) {
        if n in t.peers.entries {
          assert n in t.peers.order;
          var k :| 0 <= k < |t.peers.order| && t.peers.order[k] == n;
          assert !Refused(t, k, texts, clocks);
        }
      }
    }
  }

  /**
   * A punch reply moves the record it was started with to the address it came from and marks it, whether or not the
   * table still holds it; other records, the table and the index stay. So afterwards the peers whose entry is that
   * record can be sent to.
   */
  lemma PunchReplyExactly(t: Table, r: RecordId, reply: Reply)
    ensures var u := AfterPunchSuccess(t, r, reply);
            && u.peers == t.peers && u.connected == t.connected && u.told == t.told && u.records.Keys == t.records.Keys
            && (r in t.records ==>
                  var was, now := t.records[r], u.records[r];
                  && now.externalIp == reply.ip && now.externalPort == reply.port && now.connected
                  && now.nodeId == was.nodeId && now.lastSeen == was.lastSeen && now.latencyMs == was.latencyMs)
            && (forall q :: q in t.records && q != r ==> u.records[q] == t.records[q])
            && (forall n :: CanSend(u, n) <==>
                  CanSend(t, n) || (n in t.peers.entries && t.peers.entries[n] == r && r in t.records))
  {
  }

  /** A handshake of a known peer marks it in both places and renews its time; an unknown one changes nothing. */
  lemma HandshakeExactly(t: Table, n: string, now: real)
    requires Keyed(t)
    ensures var u := AfterHandshake(t, n, now);
            && u.peers == t.peers && u.told == t.told && u.records.Keys == t.records.Keys
            && (n !in t.peers.entries ==> u == t)
            && (n in t.peers.entries ==>
                  && CanSend(u, n) && Marked(u, n) && !TimedOut(u, n, now + HEARTBEAT_TIMEOUT)
                  && var r := t.peers.entries[n];
                     && u.records[r] == t.records[r].(connected := true, lastSeen := now)
                     && forall q :: q in t.records && q != r ==> u.records[q] == t.records[q])
            && (forall m :: m != n ==> (Marked(u, m) <==> Marked(t, m)))
  {
  }

  /** A heartbeat keeps its sender from timing out for 15 seconds and does nothing for anybody else. */
  lemma HeartbeatExactly(t: Table, n: string, now: real, latency: int)
    requires Keyed(t)
    ensures var u := AfterHeartbeat(t, n, now, latency);
            && u.peers == t.peers && u.connected == t.connected && u.told == t.told && u.records.Keys == t.records.Keys
            && (n !in t.peers.entries ==> u == t)
            && (n in t.peers.entries ==>
                  && u.records[t.peers.entries[n]].lastSeen == now && u.records[t.peers.entries[n]].latencyMs == latency
                  && forall q :: q in t.records && q != t.peers.entries[n] ==> u.records[q] == t.records[q])
            && (forall m :: CanSend(u, m) <==> CanSend(t, m))
            && (forall later :: later <= now + 15.0 ==> !TimedOut(u, n, later))
            && (forall m, later :: m != n ==> (TimedOut(u, m, later) <==> TimedOut(t, m, later)))
  {
  }

  /** Every step leaves every peer's record under its own id. */
  lemma StepKeyed(t: Table, l: Label)
    requires Keyed(t) && Possible(t, l)
    ensures Keyed(Next(t, l))
    ensures !l.Connect? && Linked(t) ==> Linked(Next(t, l))
  {
    match l
    case Connect(r, node) => ConnectExactly(t, r, node);
    case PunchSuccess(r, reply) =>
      if r in t.records {
        UpdateKeeps(t, r, t.records[r].(externalIp := reply.ip, externalPort := reply.port, connected := true));
      }
    case Handshake(n, now) => HandshakeKeeps(t, n, now);
    case Heartbeat(n, now, latency) =>
      if n in t.peers.entries {
        var r := t.peers.entries[n];
        UpdateKeeps(t, r, t.records[r].(lastSeen := now, latencyMs := latency));
      }
    case Disconnect(ip, port) => DisconnectExactly(t, ip, port);
    case Round(texts, clocks, now) => RoundKeeps(t, texts, clocks, now);
  }

  /** Whether every listed peer can be sent to survives a step exactly when the step is orderly. */
  lemma StepExactly(t: Table, l: Label)
    requires Keyed(t) && Linked(t) && Possible(t, l)
    ensures Linked(Next(t, l)) <==> Orderly(t, l)
  {
    StepKeyed(t, l);
    if l.Connect? {
      ConnectExactly(t, l.record, l.node);
    }
  }

  lemma {:induction false} ExpiredExactly(t: Table, ns: seq<string>, now: real)
    requires Distinct(ns)
    ensures Distinct(Expired(t, ns, now))
    ensures forall n :: n in Expired(t, ns, now) <==> n in ns && TimedOut(t, n, now)
  {
    if ns != [] {
      var init, last := ns[..|ns| - 1], ns[|ns| - 1];
      ExpiredExactly(t, init, now);
      assert ns == init + [last];
      assert last !in init;
    }
  }

  /** The ids of which a step told the disconnect handlers. */
  function Told(t: Table, l: Label): seq<string> {
    match l
    case Disconnect(ip, port) => (match FindFrom(t, 0, ip, port) case None => [] case Some(n) => [n])
    case Round(texts, clocks, now) => if AnyRefused(t, texts, clocks) then [] else Expired(t, t.peers.order, now)
    case _ => []
  }

  /**
   * Whoever could be sent to before a step and cannot be afterwards was told of, once, except a peer whose record
   * was replaced by an unconnected one; and whoever was told of cannot be sent to.
   */
  lemma LossesTold(t: Table, l: Label)
    requires Keyed(t) && Possible(t, l)
    ensures Next(t, l).told == t.told + Told(t, l) && Distinct(Told(t, l))
    ensures forall n :: CanSend(t, n) && !CanSend(Next(t, l), n) <==>
                        CanSend(t, n) && (n in Told(t, l) || (l.Connect? && l.node.nodeId == n && !l.node.connected))
    ensures forall n :: n in Told(t, l) ==> n in t.peers.entries && !CanSend(Next(t, l), n)
  {
    match l
    case Disconnect(ip, port) =>
      DisconnectExactly(t, ip, port);
      if k :| FirstAt(t, k, ip, port) {
        assert FindFrom(t, 0, ip, port) == Some(t.peers.order[k]);
      }
    case Round(texts, clocks, now) =>
      AfterStaleCheck(t, now);
      ExpiredExactly(t, t.peers.order, now);
    case Connect(r, node) => ConnectExactly(t, r, node);
    case _ =>
  }

  // ---------------------------------------------------------------- over whole runs

  function Run(t: Table, ls: seq<Label>): Table {
    if ls == [] then t else Next(Run(t, ls[..|ls| - 1]), ls[|ls| - 1])
  }

  ghost predicate PossibleRun(t: Table, ls: seq<Label>) {
    ls == [] || (PossibleRun(t, ls[..|ls| - 1]) && Possible(Run(t, ls[..|ls| - 1]), ls[|ls| - 1]))
  }

  ghost predicate OrderlyRun(t: Table, ls: seq<Label>) {
    ls == [] || (OrderlyRun(t, ls[..|ls| - 1]) && Orderly(Run(t, ls[..|ls| - 1]), ls[|ls| - 1]))
  }

  ghost predicate LinkedThroughout(t: Table, ls: seq<Label>) {
    Linked(Run(t, ls)) && (ls == [] || LinkedThroughout(t, ls[..|ls| - 1]))
  }

  lemma {:induction false} RunKeyed(t: Table, ls: seq<Label>)
    requires Keyed(t) && PossibleRun(t, ls)
    ensures Keyed(Run(t, ls))
  {
    if ls != [] {
      RunKeyed(t, ls[..|ls| - 1]);
      StepKeyed(Run(t, ls[..|ls| - 1]), ls[|ls| - 1]);
    }
  }

  /**
   * Every listed peer can be sent to at every moment of a run exactly when the run never reconnects a marked id
   * afresh.
   */
  lemma {:induction false} IndexExactly(ls: seq<Label>)
    requires PossibleRun(EMPTY, ls)
    ensures LinkedThroughout(EMPTY, ls) <==> OrderlyRun(EMPTY, ls)
  {
    if ls != [] {
      IndexExactly(ls[..|ls| - 1]);
      RunKeyed(EMPTY, ls[..|ls| - 1]);
      if Linked(Run(EMPTY, ls[..|ls| - 1])) {
        StepExactly(Run(EMPTY, ls[..|ls| - 1]), ls[|ls| - 1]);
      }
    }
  }

  // ---------------------------------------------------------------- nobody times out

  /** The step neither ends peer n by a disconnect packet nor replaces its record by an unconnected one. */
  predicate Spares(t: Table, l: Label, n: string) {
    match l
    case Disconnect(ip, port) => FindFrom(t, 0, ip, port) != Some(n)
    case Connect(_, node) => node.nodeId == n ==> node.connected
    case _ => true
  }

  ghost predicate LateClocks(l: Label) {
    l.Round? ==> forall k :: l.clocks(k) >= 0x1_0000_0000
  }

  lemma StepSpares(t: Table, l: Label, n: string)
    requires Keyed(t) && Possible(t, l) && LateClocks(l) && CanSend(t, n)
    ensures CanSend(Next(t, l), n) <==> Spares(t, l, n)
  {
    LossesTold(t, l);
    if l.Round? {
      RoundDropsNobody(t, l.texts, l.clocks, l.now);
    }
  }

  ghost predicate SparedRun(t: Table, ls: seq<Label>, n: string) {
    ls == [] || (SparedRun(t, ls[..|ls| - 1], n) && Spares(Run(t, ls[..|ls| - 1]), ls[|ls| - 1], n))
  }

  ghost predicate SendableThroughout(t: Table, ls: seq<Label>, n: string) {
    CanSend(Run(t, ls), n) && (ls == [] || SendableThroughout(t, ls[..|ls| - 1], n))
  }

  /**
   * With clocks that do not fit, a connected peer stays connected at every moment of a run, however long it has been
   * silent, exactly when no step ends it by a disconnect packet or replaces its record: nobody ever times out.
   */
  lemma {:induction false} NobodyTimesOut(t: Table, ls: seq<Label>, n: string)
    requires Keyed(t) && PossibleRun(t, ls) && CanSend(t, n) && forall i :: 0 <= i < |ls| ==> LateClocks(ls[i])
    ensures SendableThroughout(t, ls, n) <==> SparedRun(t, ls, n)
  {
    if ls != [] {
      NobodyTimesOut(t, ls[..|ls| - 1], n);
      RunKeyed(t, ls[..|ls| - 1]);
      if CanSend(Run(t, ls[..|ls| - 1]), n) {
        StepSpares(Run(t, ls[..|ls| - 1]), ls[|ls| - 1], n);
      }
    }
  }

  // ---------------------------------------------------------------- a run on which the index parts from the table

  /**
   * A peer that connects, shakes hands and is connected again from a fresh record stays listed but cannot be sent
   * to.
   */
  lemma ListedButUnreachable() returns (ls: seq<Label>)
    ensures PossibleRun(EMPTY, ls) && Marked(Run(EMPTY, ls), "p") && !CanSend(Run(EMPTY, ls), "p")
  {
    var node := Node("p", "192.0.2.1", 25565, 0.0, 0, false);
    var l0, l1, l2 := Connect(0, node), Handshake("p", 0.0), Connect(1, node);
    RunSnoc(EMPTY, [], l0);
    RunSnoc(EMPTY, [l0], l1);
    RunSnoc(EMPTY, [l0, l1], l2);
    ls := [l0, l1] + [l2];
    assert [] + [l0] == [l0] && [l0] + [l1] == [l0, l1];
    var t := AfterConnect(EMPTY, 0, node);
    assert "p" in t.peers.entries;
    assert Marked(AfterHandshake(t, "p", 0.0), "p");
  }

  lemma RunSnoc(t: Table, ls: seq<Label>, l: Label)
    ensures Run(t, ls + [l]) == Next(Run(t, ls), l)
    ensures PossibleRun(t, ls + [l]) <==> PossibleRun(t, ls) && Possible(Run(t, ls), l)
  {
    assert (ls + [l])[..|ls|] == ls;
  }

  // ---------------------------------------------------------------- the object

  function View(node: NodeInfo): Node
    reads node
  {
    Node(node.nodeId, node.externalIp, node.externalPort, node.lastSeen, node.latencyMs, node.connected)
  }

  class P2PConnection {
    var peers: Dict<string, NodeInfo>
    var connected: map<string, bool>

    /** The table the objects stand for, and every record ever passed in. */
    ghost var t: Table
    ghost var known: set<NodeInfo>

    constructor ()
      ensures Valid() && t == EMPTY && known == {}
    {
      peers, connected := Empty(), map[];
      t, known := EMPTY, {};
    }

    ghost predicate Valid()
      reads this, known
    {
      t.connected == connected && PeersMatch(t.peers) && RecordsMatch(t.records)
    }

    ghost predicate PeersMatch(ids: Dict<string, RecordId>)
      reads `peers, `known
    {
      && ids.order == peers.order && ids.entries.Keys == peers.entries.Keys
      && forall n :: n in peers.entries ==> peers.entries[n] in known && peers.entries[n].id == ids.entries[n]
    }

    ghost predicate RecordsMatch(records: map<RecordId, Node>)
      reads `known, known
    {
      && (forall node :: node in known ==> node.id in records && View(node) == records[node.id])
      && (forall a, b :: a in known && b in known && a.id == b.id ==> a == b)
    }

    /** `connect`, up to the start of the punch; a record not seen before has an id not seen before. */
    method Connect(node: NodeInfo)
      requires Valid() && (node in known || node.id !in t.records)
      modifies `peers, `t, `known
      ensures Valid() && Possible(old(t), Label.Connect(node.id, View(node)))
      ensures t == AfterConnect(old(t), node.id, View(node)) && known == old(known) + {node}
    {
      peers, known := Put(peers, node.nodeId, node), known + {node};
      t := AfterConnect(t, node.id, View(node));
      assert PeersMatch(t.peers) && RecordsMatch(t.records);
    }

    /** What the hole puncher does to the record of a successful attempt. */
    method OnReply(node: NodeInfo, reply: Reply)
      requires Valid() && node in known
      modifies `t, node
      ensures Valid() && t == AfterPunchSuccess(old(t), node.id, reply)
    {
      node.externalIp, node.externalPort, node.connected := reply.ip, reply.port, true;
      t := AfterPunchSuccess(t, node.id, reply);
    }

    method HandleHandshake(n: string, now: real)
      requires Valid()
      modifies `t, `connected, known
      ensures Valid() && t == AfterHandshake(old(t), n, now)
    {
      if n in peers.entries {
        var peer := peers.entries[n];
        peer.connected, peer.lastSeen := true, now;
        connected := connected[n := true];
        t := AfterHandshake(t, n, now);
      }
    }

    method HandleHeartbeat(n: string, now: real, latency: int)
      requires Valid()
      modifies `t, known
      ensures Valid() && t == AfterHeartbeat(old(t), n, now, latency)
    {
      if n in peers.entries {
        var peer := peers.entries[n];
        peer.lastSeen, peer.latencyMs := now, latency;
        t := AfterHeartbeat(t, n, now, latency);
      }
    }

    /** Both copies of one peer's connected flag go down. */
    method Lose(n: string)
      requires Valid() && n in peers.entries
      modifies `t, `connected, known
      ensures Valid() && t == Drop(old(t), n)
    {
      var peer := peers.entries[n];
      peer.connected := false;
      connected := connected[n := false];
      t := Drop(t, n);
    }

    method HandleDisconnect(ip: string, port: nat)
      requires Valid()
      modifies `t, `connected, known
      ensures Valid() && t == AfterDisconnect(old(t), ip, port)
    {
      for k := 0 to |peers.order|
        invariant Valid() && t == old(t) && FindFrom(t, 0, ip, port) == FindFrom(t, k, ip, port)
      {
        assert peers.order[k] in peers.order;
        var peer := peers.entries[peers.order[k]];
        if peer.externalIp == ip && peer.externalPort == port {
          Lose(peers.order[k]);
          return;
        }
      }
    }

    method CheckStalePeers(now: real)
      requires Valid()
      modifies `t, `connected, known
      ensures Valid() && t == AfterCheck(old(t), |old(t).peers.order|, now)
    {
      var list := peers.order;
      for k := 0 to |list|
        invariant Valid() && t == AfterCheck(old(t), k, now) && t.peers == old(t).peers
      {
        assert list[k] in peers.order;
        var peer := peers.entries[list[k]];
        if peer.connected && now - peer.lastSeen > HEARTBEAT_TIMEOUT {
          Lose(list[k]);
        }
      }
    }

    /** The bytes of a heartbeat; None is the exception of `packet.encode()`. */
    method HeartbeatData(text: bytes, clock: int) returns (data: Option<bytes>)
      ensures data.Some? <==> Sendable(HEARTBEAT, text, clock)
      ensures data.Some? <==> Sendable(HEARTBEAT, text, clock)
      ensures data.Some? ==>
                |data.value| == 24 + |text| && BigEndian(data.value[6..8]) == 0x02 && data.value[24..] == text
    {
      data := Wire(HEARTBEAT, text, clock);
      if data.Some? {
        HeartbeatPacket(text, clock);
      }
    }

    /**
     * One turn of `_heartbeat_loop`: `texts` and `clocks` give the text of each peer's heartbeat and the clock
     * then.
     */
    method HeartbeatRound(texts: nat -> bytes, clocks: nat -> int, now: real) returns (raised: bool)
      requires Valid()
      modifies `t, `connected, known
      ensures Valid() && t == Next(old(t), Round(texts, clocks, now))
      ensures raised <==> AnyRefused(old(t), texts, clocks)
    {
      for k := 0 to |peers.order|
        invariant Valid() && t == old(t)
        invariant forall j :: 0 <= j < k ==> !Refused(t, j, texts, clocks)
      {
        assert peers.order[k] in peers.order;
        if peers.entries[peers.order[k]].connected {
          var data := HeartbeatData(texts(k), clocks(k));
          if data.None? {
            assert Refused(t, k, texts, clocks);
            return true;
          }
        }
      }
      CheckStalePeers(now);
      raised := false;
    }

    /** Whether `send` gets past its guard. */
    method Send(n: string) returns (passed: bool)
      requires Valid()
      ensures passed == CanSend(t, n)
    {
      passed := n in peers.entries && peers.entries[n].connected;
    }

    method GetConnectedPeers() returns (ns: set<string>)
      requires Valid()
      ensures forall n :: n in ns <==> Marked(t, n)
      ensures Linked(t) ==> forall n :: n in ns ==> CanSend(t, n)
    {
      ns := set n | n in connected && connected[n];
    }
  }
}
