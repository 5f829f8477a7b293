/** How a join is decided, and how often each node hears of a state update or a departure. */
module RoomNotices {
  import opened Bytes
  import opened PyDict
  import opened RoomState
  import opened RoomInvariants
  import opened RoomMembership
  import opened RoomLog

  // ---------------------------------------------------------------- joining

  predicate PasswordOk(room: Room, password: Option<string>) {
    room.password == None || room.password == Some("") || room.password == password
  }

  /** From s to t the answer to a join of this room goes out last, for the reason that holds, and membership fits it. */
  ghost predicate Decided(s: State, t: State, room: Room, c: ConnId, n: NodeId, r: RoomId,
                          password: Option<string>)
  {
    && |t.log| > |s.log| && r in t.w.rooms.entries
    && var e := t.log[|t.log| - 1];
       && e.node == n && e.conn == c
       && (e.packet.JoinOk? <==>
             PasswordOk(room, password) && n !in room.banned && |room.members.entries| < room.maxMembers)
       && (e.packet == JoinRefused(InvalidPassword) <==> !PasswordOk(room, password))
       && (e.packet == JoinRefused(Banned) <==> PasswordOk(room, password) && n in room.banned)
       && (e.packet.JoinOk? || e.packet.JoinRefused?)
       && t.w.rooms.entries[r].members.entries.Keys ==
          room.members.entries.Keys + (if e.packet.JoinOk? then {n} else {})
  }

  /**
   * The answer to a join, and whether the node is then in the room. A room that is not there is made first, and
   * then the join succeeds whatever the password: its maker is the only member and the owner.
   */
  lemma JoinDecided(s: State, c: ConnId, n: NodeId, r: RoomId, password: Option<string>)
    requires Sender(s.w, c) == Some(n)
    ensures var t := AfterJoin(s, c, r, password);
            && Decided(s, t, OpenRoom(s.w, n, r, password).rooms.entries[r], c, n, r, password)
            && (r !in s.w.rooms.entries ==> t.log[|t.log| - 1].packet.JoinOk? && OwnedAlone(t.w, n, r, password))
  {
    var v := OpenRoom(s.w, n, r, password);
    if r !in s.w.rooms.entries {
      CreatorOwns(s.w, c, n, r, password);
    }
    JoinAnswered(s.(w := v), c, n, r, password);
  }

  /** Room r is public with this password, and n, its owner, is all there is in it. */
  predicate OwnedAlone(w: World, n: NodeId, r: RoomId, password: Option<string>) {
    && r in w.rooms.entries && r in w.publicRooms
    && var room := w.rooms.entries[r];
       && room.ownerId == n && room.password == password && room.visibility == PUBLIC
       && room.members.entries.Keys == {n} && room.members.entries[n].role == OWNER
  }

  lemma JoinAnswered(s: State, c: ConnId, n: NodeId, r: RoomId, password: Option<string>)
    requires c in s.w.sessions && r in s.w.rooms.entries
    ensures Decided(s, Enter(s, c, n, r, password), s.w.rooms.entries[r], c, n, r, password)
  {
    match JoinCheck(s.w.rooms.entries[r], n, password)
    case Some(why) => RefusalDecided(s, c, n, r, password);
    case None => WelcomeDecided(s, c, n, r, password);
  }

  lemma RefusalDecided(s: State, c: ConnId, n: NodeId, r: RoomId, password: Option<string>)
    requires r in s.w.rooms.entries && JoinCheck(s.w.rooms.entries[r], n, password).Some?
    ensures var room := s.w.rooms.entries[r];
            Decided(s, Deliver(s, [(n, c)], JoinRefused(JoinCheck(room, n, password).value)), room, c, n, r, password)
  {
    DeliverLog(s, [(n, c)], JoinRefused(JoinCheck(s.w.rooms.entries[r], n, password).value));
  }

  lemma WelcomeDecided(s: State, c: ConnId, n: NodeId, r: RoomId, password: Option<string>)
    requires c in s.w.sessions && r in s.w.rooms.entries && JoinCheck(s.w.rooms.entries[r], n, password).None?
    ensures Decided(s, Welcome(s.(w := Admit(s.w, c, n, r)), c, n, r), s.w.rooms.entries[r], c, n, r, password)
  {
    var v := Admit(s.w, c, n, r);
    assert v.rooms.entries[r].members.entries.Keys == s.w.rooms.entries[r].members.entries.Keys + {n};
    WelcomeAnswer(s.(w := v), c, n, r);
  }

  lemma WelcomeAnswer(s: State, c: ConnId, n: NodeId, r: RoomId)
    requires c in s.w.sessions && r in s.w.rooms.entries
    ensures var t := Welcome(s, c, n, r);
            && |t.log| > |s.log| && t.log[|t.log| - 1].node == n && t.log[|t.log| - 1].conn == c
            && t.log[|t.log| - 1].packet.JoinOk?
  {
    var room, packet := s.w.rooms.entries[r], MemberJoined(n, s.w.sessions[c].username);
    DeliverLog(s, Targets(s.w.clients.entries, room, |room.members.order|, {n}), packet);
    DeliverLog(Broadcast(s, r, packet, {n}), [(n, c)], JoinOk(Card(room), room.members.order));
  }

  lemma CreatorOwns(w: World, c: ConnId, n: NodeId, r: RoomId, password: Option<string>)
    requires Sender(w, c) == Some(n) && r !in w.rooms.entries
    ensures OwnedAlone(Joined(w, c, r, password), n, r, password)
  {
    var room := OpenRoom(w, n, r, password).rooms.entries[r];
    assert room == Room(r, PUBLIC, password, 100, n, Empty(), {}) && JoinCheck(room, n, password) == None;
  }

  /** Who is registered in the room already, apart from n. */
  function Others(w: World, n: NodeId, r: RoomId): set<NodeId> {
    if r in w.rooms.entries then
      set m | m in w.rooms.entries[r].members.entries && m in w.clients.entries && m != n
    else {}
  }

  function MembersOf(w: World, r: RoomId): set<NodeId> {
    if r in w.rooms.entries then w.rooms.entries[r].members.entries.Keys else {}
  }

  /**
   * From s to t, first each of the others hears once, on its own connection, that n joined, under consecutive
   * numbers; then n is answered with the room as it now stands and with everyone in it, itself included.
   */
  ghost predicate TellsOfJoin(s: State, t: State, others: set<NodeId>, c: ConnId, n: NodeId, r: RoomId) {
    && c in s.w.sessions && r in t.w.rooms.entries
    && |t.log| == |s.log| + |others| + 1 && t.sequence == s.sequence + |others| + 1
    && Informs(s, t.(log := t.log[..|t.log| - 1]), others, MemberJoined(n, s.w.sessions[c].username))
    && AnswersJoin(s, t.log[|t.log| - 1], t.sequence, c, n, r, t.w.rooms.entries[r])
  }

  ghost predicate AnswersJoin(s: State, e: Sent, sequence: nat, c: ConnId, n: NodeId, r: RoomId, room: Room) {
    && e.sequence == sequence && e.node == n && e.conn == c && e.packet.JoinOk?
    && e.packet.card.roomId == r && Shows(e.packet.card, room)
    && e.packet.card.memberCount == |MembersOf(s.w, r) + {n}|
    && Distinct(e.packet.members) && forall m :: m in e.packet.members <==> m in MembersOf(s.w, r) + {n}
  }

  /**
   * Every other registered member hears of an admitted join; while all members are registered, that is the whole
   * room.
   */
  lemma JoinTold(s: State, c: ConnId, n: NodeId, r: RoomId, password: Option<string>)
    requires RoomsOk(s.w) && Sender(s.w, c) == Some(n) && Admitted(s.w, c, r, password)
    ensures TellsOfJoin(s, AfterJoin(s, c, r, password), Others(s.w, n, r), c, n, r)
    ensures MembersRegistered(s.w) ==> Others(s.w, n, r) == MembersOf(s.w, r) - {n}
  {
    var mid := JoinSteps(s, c, n, r, password);
    JoinLogged(s, mid, AfterJoin(s, c, r, password), Others(s.w, n, r), c, n, r);
    NobodyMissed(s.w, n, r);
  }

  lemma NobodyMissed(w: World, n: NodeId, r: RoomId)
    ensures MembersRegistered(w) ==> Others(w, n, r) == MembersOf(w, r) - {n}
  {
    assert MembersRegistered(w) ==> forall m :: m in MembersOf(w, r) ==> InRoom(w, m, r);
  }

  /** The state between the notices and the answer, and what was done up to there and from there. */
  ghost predicate Between(s: State, mid: State, t: State, others: set<NodeId>, c: ConnId, n: NodeId, r: RoomId) {
    && c in s.w.sessions && r in t.w.rooms.entries && t.w.clients == s.w.clients
    && RoomOk(r, t.w.rooms.entries[r]) && t.w.rooms.entries[r].members.entries.Keys == MembersOf(s.w, r) + {n}
    && Informs(s.(w := t.w), mid, others, MemberJoined(n, s.w.sessions[c].username))
    && mid.sequence - s.sequence == |mid.log| - |s.log|
    && var room := t.w.rooms.entries[r];
       && |t.log| == |mid.log| + 1 && t.log[..|mid.log|] == mid.log && t.sequence == mid.sequence + 1
       && t.log[|mid.log|] == Sent(mid.sequence + 1, n, c, JoinOk(Card(room), room.members.order))
  }

  lemma JoinSteps(s: State, c: ConnId, n: NodeId, r: RoomId, password: Option<string>) returns (mid: State)
    requires RoomsOk(s.w) && Sender(s.w, c) == Some(n) && Admitted(s.w, c, r, password)
    ensures Between(s, mid, AfterJoin(s, c, r, password), Others(s.w, n, r), c, n, r)
  {
    var w := Joined(s.w, c, r, password);
    var u, packet := s.(w := w), MemberJoined(n, s.w.sessions[c].username);
    mid := Broadcast(u, r, packet, {n});
    JoinKeepsRooms(s.w, c, r, password);
    JoinedRoom(s.w, c, n, r, password);
    BroadcastExactly(u, r, packet, {n});
    BroadcastNumbers(u, r, packet, {n});
    WelcomeLog(u, c, n, r);
    assert Audience(w, r, {n}) == Others(s.w, n, r);
    assert AfterJoin(s, c, r, password) == Welcome(u, c, n, r);
  }

  lemma BroadcastNumbers(s: State, r: RoomId, packet: Packet, exclude: set<NodeId>)
    ensures var t := Broadcast(s, r, packet, exclude); t.sequence - s.sequence == |t.log| - |s.log|
  {
    if r in s.w.rooms.entries {
      var room := s.w.rooms.entries[r];
      DeliverLog(s, Targets(s.w.clients.entries, room, |room.members.order|, exclude), packet);
    }
  }

  lemma JoinLogged(s: State, mid: State, t: State, others: set<NodeId>, c: ConnId, n: NodeId, r: RoomId)
    requires Between(s, mid, t, others, c, n, r)
    ensures TellsOfJoin(s, t, others, c, n, r)
  {
    var packet := MemberJoined(n, s.w.sessions[c].username);
    InformsAll(s.(w := t.w), mid, others, packet);
    assert t.log[..|t.log| - 1] == mid.log;
    InformsSame(s.(w := t.w), mid, s, t.(log := mid.log), others, packet);
    CardAnswers(s, t.sequence, c, n, r, t.w.rooms.entries[r]);
  }

  /** The tables matter to what is told only by who is registered on which connection. */
  lemma InformsSame(s: State, t: State, u: State, v: State, audience: set<NodeId>, packet: Packet)
    requires Informs(s, t, audience, packet) && u.log == s.log && v.log == t.log
    requires u.sequence == s.sequence && u.w.clients == s.w.clients
    ensures Informs(u, v, audience, packet)
  {
  }

  lemma CardAnswers(s: State, sequence: nat, c: ConnId, n: NodeId, r: RoomId, room: Room)
    requires RoomOk(r, room) && room.members.entries.Keys == MembersOf(s.w, r) + {n}
    ensures AnswersJoin(s, Sent(sequence, n, c, JoinOk(Card(room), room.members.order)), sequence, c, n, r, room)
  {
    assert |room.members.entries| == |room.members.entries.Keys|;
  }

  lemma JoinedRoom(w: World, c: ConnId, n: NodeId, r: RoomId, password: Option<string>)
    requires Sender(w, c) == Some(n) && Admitted(w, c, r, password)
    ensures var v := Joined(w, c, r, password);
            && r in v.rooms.entries && v.clients == w.clients && c in v.sessions
            && v.sessions[c].username == w.sessions[c].username
            && v.rooms.entries[r].members.entries.Keys == MembersOf(w, r) + {n}
  {
  }

  lemma WelcomeLog(s: State, c: ConnId, n: NodeId, r: RoomId)
    requires c in s.w.sessions && r in s.w.rooms.entries
    ensures var room, username := s.w.rooms.entries[r], s.w.sessions[c].username;
            var t, u := Broadcast(s, r, MemberJoined(n, username), {n}), Welcome(s, c, n, r);
            && |u.log| == |t.log| + 1 && u.log[..|t.log|] == t.log && u.sequence == t.sequence + 1
            && u.log[|t.log|] == Sent(t.sequence + 1, n, c, JoinOk(Card(room), room.members.order))
  {
    var room := s.w.rooms.entries[r];
    var t := Broadcast(s, r, MemberJoined(n, s.w.sessions[c].username), {n});
    DeliverLog(t, [(n, c)], JoinOk(Card(room), room.members.order));
  }

  /** One notice each means as many entries as there are nodes, and as many numbers. */
  lemma InformsAll(s: State, t: State, audience: set<NodeId>, packet: Packet)
    requires Informs(s, t, audience, packet)
    ensures |t.log| == |s.log| + |audience|
  {
    var from := |s.log|;
    EachOnce(t.log[from..], audience);
  }

  lemma {:induction false} EachOnce(es: seq<Sent>, nodes: set<NodeId>)
    requires forall i :: 0 <= i < |es| ==> es[i].node in nodes
    requires forall i, j :: 0 <= i < j < |es| ==> es[i].node != es[j].node
    requires forall m :: m in nodes ==> exists i :: 0 <= i < |es| && es[i].node == m
    ensures |es| == |nodes|
  {
    if es == [] {
      assert nodes == {};
    } else {
      var k := |es| - 1;
      forall m | m in nodes - {es[k].node} ensures exists i :: 0 <= i < k && es[..k][i].node == m {
        var i :| 0 <= i < |es| && es[i].node == m;
        assert es[..k][i].node == m;
      }
      EachOnce(es[..k], nodes - {es[k].node});
    }
  }

  // ---------------------------------------------------------------- how often a node is told

  function CountTo(log: seq<Sent>, m: NodeId): nat {
    if log == [] then 0 else CountTo(log[..|log| - 1], m) + if log[|log| - 1].node == m then 1 else 0
  }

  /** Nothing for m between two places of a log. */
  lemma {:induction false} CountNone(log: seq<Sent>, k: nat, m: NodeId)
    requires k <= |log| && forall i :: k <= i < |log| ==> log[i].node != m
    ensures CountTo(log, m) == CountTo(log[..k], m)
  {
    if k == |log| {
      assert log[..k] == log;
    } else {
      CountNone(log[..|log| - 1], k, m);
      assert log[..|log| - 1][..k] == log[..k];
    }
  }

  lemma {:induction false} CountOne(log: seq<Sent>, k: nat, m: NodeId, i: nat)
    requires k <= i < |log| && log[i].node == m && forall j :: k <= j < |log| && j != i ==> log[j].node != m
    ensures CountTo(log, m) == CountTo(log[..k], m) + 1
  {
    CountNone(log, i + 1, m);
    assert log[..i + 1][..i] == log[..i];
    CountNone(log[..i], k, m);
    assert log[..i][..k] == log[..k];
  }

  lemma InformsCount(s: State, t: State, audience: set<NodeId>, packet: Packet, m: NodeId)
    requires Informs(s, t, audience, packet)
    ensures CountTo(t.log, m) == CountTo(s.log, m) + if m in audience then 1 else 0
  {
    if m in audience {
      var i :| |s.log| <= i < |t.log| && t.log[i].node == m;
      CountOne(t.log, |s.log|, m, i);
    } else {
      CountNone(t.log, |s.log|, m);
    }
  }

  /** The rooms of a list that two nodes share. */
  function Shared(w: World, n: NodeId, m: NodeId, rooms: seq<RoomId>): nat {
    if rooms == [] then 0
    else
      var r := rooms[|rooms| - 1];
      Shared(w, n, m, rooms[..|rooms| - 1]) + if InRoom(w, n, r) && InRoom(w, m, r) then 1 else 0
  }

  lemma BroadcastCount(s: State, r: RoomId, packet: Packet, exclude: set<NodeId>, m: NodeId)
    requires RoomsOk(s.w) && MembersRegistered(s.w)
    ensures CountTo(Broadcast(s, r, packet, exclude).log, m) ==
            CountTo(s.log, m) + if InRoom(s.w, m, r) && m !in exclude then 1 else 0
  {
    BroadcastExactly(s, r, packet, exclude);
    InformsCount(s, Broadcast(s, r, packet, exclude), Audience(s.w, r, exclude), packet, m);
    if r in s.w.rooms.entries {
      AudienceIsRoom(s.w, r, exclude);
    }
  }

  /** A state update reaches every other node once for each room it shares with the sender. */
  lemma {:induction false} SyncCount(s: State, n: NodeId, rooms: seq<RoomId>, packet: Packet, m: NodeId)
    requires RoomsOk(s.w) && MembersRegistered(s.w)
    ensures CountTo(SyncRooms(s, n, rooms, packet).log, m) ==
            CountTo(s.log, m) + if m == n then 0 else Shared(s.w, n, m, rooms)
  {
    if rooms != [] {
      SyncCount(s, n, rooms[..|rooms| - 1], packet, m);
      BroadcastCount(SyncRooms(s, n, rooms[..|rooms| - 1], packet), rooms[|rooms| - 1], packet, {n}, m);
    }
  }

  lemma RemoveCount(s: State, n: NodeId, r: RoomId, m: NodeId)
    requires RoomsOk(s.w) && MembersRegistered(s.w)
    ensures CountTo(Remove(s, n, r).log, m) ==
            CountTo(s.log, m) + if InRoom(s.w, n, r) && InRoom(s.w, m, r) && m != n then 1 else 0
  {
    if InRoom(s.w, n, r) {
      ExpelKeepsRooms(s.w, n, r);
      ExpelEffect(s.w, n, r);
      var t := s.(w := Expel(s.w, n, r));
      BroadcastCount(t, r, MemberLeft(n, s.w.rooms.entries[r].members.entries[n].username), {}, m);
    }
  }

  /** A departure from a list of distinct rooms is told to every other node once for each of them it is in too. */
  lemma {:induction false} DepartureCount(s: State, n: NodeId, rooms: seq<RoomId>, m: NodeId)
    requires RoomsOk(s.w) && MembersRegistered(s.w) && Distinct(rooms)
    ensures CountTo(RemoveAll(s, n, rooms).log, m) ==
            CountTo(s.log, m) + if m == n then 0 else Shared(s.w, n, m, rooms)
  {
    if rooms != [] {
      var init, r := rooms[..|rooms| - 1], rooms[|rooms| - 1];
      DepartureCount(s, n, init, m);
      ExpelAllKeepsRooms(s.w, n, init);
      ExpelAllEffect(s.w, n, init);
      assert r !in init;
      RemoveCount(RemoveAll(s, n, init), n, r, m);
    }
  }

  // ---------------------------------------------------------------- once for each room in common

  function SharedRooms(w: World, n: NodeId, m: NodeId): set<RoomId> {
    set r | r in w.rooms.entries && InRoom(w, n, r) && InRoom(w, m, r)
  }

  function SharedAmong(w: World, n: NodeId, m: NodeId, rooms: seq<RoomId>): set<RoomId> {
    set r | r in rooms && InRoom(w, n, r) && InRoom(w, m, r)
  }

  lemma SharedAmongSnoc(w: World, n: NodeId, m: NodeId, rooms: seq<RoomId>, r: RoomId)
    ensures SharedAmong(w, n, m, rooms + [r]) ==
            SharedAmong(w, n, m, rooms) + if InRoom(w, n, r) && InRoom(w, m, r) then {r} else {}
    ensures r !in rooms ==> r !in SharedAmong(w, n, m, rooms)
  {
  }

  lemma {:induction false} SharedCardinality(w: World, n: NodeId, m: NodeId, rooms: seq<RoomId>)
    requires Distinct(rooms)
    ensures Shared(w, n, m, rooms) == |SharedAmong(w, n, m, rooms)|
  {
    if rooms != [] {
      var init, last := rooms[..|rooms| - 1], rooms[|rooms| - 1];
      assert rooms == init + [last] && last !in init;
      SharedCardinality(w, n, m, init);
      SharedAmongSnoc(w, n, m, init, last);
    }
  }

  /** An enumeration of the rooms a registered node has in its set covers every room it is in. */
  lemma SharedOfAll(w: World, n: NodeId, m: NodeId, order: seq<RoomId>)
    requires MembersAreClients(w) && Enumerates(order, RoomsOf(w, n))
    ensures Shared(w, n, m, order) == |SharedRooms(w, n, m)|
  {
    SharedCardinality(w, n, m, order);
    assert SharedRooms(w, n, m) == SharedAmong(w, n, m, order);
  }

  /** A state update of a registered client reaches every other node once for each room the two have in common. */
  lemma SyncReaches(s: State, c: ConnId, syncType: string, data: string, stamp: int, order: seq<RoomId>, m: NodeId)
    requires RoomsOk(s.w) && MembersAreClients(s.w) && Registered(s.w, c) && s.w.sessions[c].open
    requires Enumerates(order, s.w.sessions[c].rooms)
    ensures var n := s.w.sessions[c].nodeId.value;
            CountTo(AfterSync(s, c, syncType, data, stamp, order).log, m) ==
            CountTo(s.log, m) + if m == n then 0 else |SharedRooms(s.w, n, m)|
  {
    var n := s.w.sessions[c].nodeId.value;
    SyncCount(s, n, order, StateSync(syncType, n, data, stamp), m);
    SharedOfAll(s.w, n, m, order);
  }

  /** A disconnect is told to every other node once for each room the two had in common. */
  lemma DisconnectReaches(s: State, n: NodeId, order: seq<RoomId>, m: NodeId)
    requires RoomsOk(s.w) && MembersAreClients(s.w) && Enumerates(order, RoomsOf(s.w, n))
    ensures CountTo(Disconnect(s, n, order).log, m) ==
            CountTo(s.log, m) + if m == n then 0 else |SharedRooms(s.w, n, m)|
  {
    SharedOfAll(s.w, n, m, order);
    if n in s.w.clients.entries {
      DepartureCount(s, n, order, m);
    } else {
      assert SharedRooms(s.w, n, m) == {};
    }
  }

  /** Every entry a state update adds carries it as it was sent, with the sender's id, to a registered connection. */
  lemma SyncSays(s: State, c: ConnId, syncType: string, data: string, stamp: int, order: seq<RoomId>)
    requires RoomsOk(s.w)
    ensures var t := AfterSync(s, c, syncType, data, stamp, order);
            && |t.log| >= |s.log| && t.log[..|s.log|] == s.log && (Sender(s.w, c).None? ==> t == s)
            && forall i :: |s.log| <= i < |t.log| ==>
                 var e := t.log[i];
                 && Sender(s.w, c).Some? && e.packet.StateSync? && e.packet.syncType == syncType
                 && e.packet.senderId == Sender(s.w, c).value && e.packet.data == data && e.packet.stamp == stamp
                 && e.node in s.w.clients.entries && e.conn == s.w.clients.entries[e.node]
  {
    if Sender(s.w, c).Some? {
      var n := Sender(s.w, c).value;
      SyncRoomsSay(s, n, order, StateSync(syncType, n, data, stamp));
    }
  }

  lemma {:induction false} SyncRoomsSay(s: State, n: NodeId, rooms: seq<RoomId>, packet: Packet)
    requires RoomsOk(s.w)
    ensures var t := SyncRooms(s, n, rooms, packet);
            && |t.log| >= |s.log| && t.log[..|s.log|] == s.log
            && forall i :: |s.log| <= i < |t.log| ==>
                 var e := t.log[i];
                 e.packet == packet && e.node in s.w.clients.entries && e.conn == s.w.clients.entries[e.node]
  {
    if rooms != [] {
      var t, r := SyncRooms(s, n, rooms[..|rooms| - 1], packet), rooms[|rooms| - 1];
      SyncRoomsSay(s, n, rooms[..|rooms| - 1], packet);
      if InRoom(s.w, n, r) {
        var u := Broadcast(t, r, packet, {n});
        BroadcastExactly(t, r, packet, {n});
        assert forall i :: 0 <= i < |t.log| ==> u.log[i] == u.log[..|t.log|][i];
        assert u.log[..|s.log|] == u.log[..|t.log|][..|s.log|];
      }
    }
  }

  // ---------------------------------------------------------------- the single answers

  /** What a log has gained in one entry. */
  ghost predicate OneMore(s: State, t: State, node: NodeId, conn: ConnId, packet: Packet) {
    && |t.log| == |s.log| + 1 && t.log[..|s.log|] == s.log && t.sequence == s.sequence + 1
    && var e := t.log[|s.log|];
       e.sequence == t.sequence && e.node == node && e.conn == conn && e.packet == packet
  }

  /**
   * A direct message from an authenticated connection reaches the target, on the connection it is registered on, once,
   * with the sender's id and name; nobody hears of one to somebody who is not registered, or without a sender.
   */
  lemma DirectTold(s: State, c: ConnId, target: NodeId, message: string)
    ensures var t := AfterDirect(s, c, target, message);
            && t.w == s.w
            && if Sender(s.w, c).Some? && target in s.w.clients.entries then
                 OneMore(s, t, target, s.w.clients.entries[target],
                         DirectMessage(Sender(s.w, c).value, s.w.sessions[c].username, message))
               else t.log == s.log
  {
    if Sender(s.w, c).Some? && target in s.w.clients.entries {
      DeliverLog(s, [(target, s.w.clients.entries[target])],
                 DirectMessage(Sender(s.w, c).value, s.w.sessions[c].username, message));
    }
  }

  /**
   * After an authentication the connection speaks for the new id under the name it gave and is answered with that
   * id; everybody else is registered as before, and no room and no set of rooms has changed.
   */
  lemma AuthTold(s: State, c: ConnId, n: NodeId, username: string, platform: string)
    requires c in s.w.sessions && s.w.sessions[c].open
    ensures var t := AfterAuth(s, c, n, username, platform);
            && OneMore(s, t, n, c, AuthOk(n)) && t.w.rooms == s.w.rooms && t.w.publicRooms == s.w.publicRooms
            && Sender(t.w, c) == Some(n) && Registered(t.w, c)
            && t.w.sessions[c].username == username && t.w.sessions[c].platform == platform
            && (forall d :: d in s.w.sessions <==> d in t.w.sessions)
            && (forall d :: d in s.w.sessions ==> t.w.sessions[d].rooms == s.w.sessions[d].rooms)
            && (forall d :: d in s.w.sessions && d != c ==> t.w.sessions[d] == s.w.sessions[d])
            && (forall m :: m in t.w.clients.entries <==> m == n || m in s.w.clients.entries)
            && (forall m :: m in s.w.clients.entries && m != n ==> t.w.clients.entries[m] == s.w.clients.entries[m])
  {
    DeliverLog(s.(w := Authenticated(s.w, c, n, username, platform)), [(n, c)], AuthOk(n));
  }

  /**
   * What an admitted join writes: the member under its id with the name and platform of its connection, as OWNER
   * exactly of a room it owns, and the room into the connection's set. All else stays, but a room made for it.
   */
  lemma JoinerSeated(w: World, c: ConnId, n: NodeId, r: RoomId, password: Option<string>)
    requires Sender(w, c) == Some(n) && Admitted(w, c, r, password)
    ensures var v := Joined(w, c, r, password);
            && r in v.rooms.entries && n in v.rooms.entries[r].members.entries && c in v.sessions
            && var room, session := v.rooms.entries[r], w.sessions[c];
               && room.members.entries[n] ==
                  Member(n, session.username, if room.ownerId == n then OWNER else MEMBER, session.platform)
               && v.sessions == w.sessions[c := session.(rooms := session.rooms + {r})] && v.clients == w.clients
               && (r in w.rooms.entries ==>
                     && room.visibility == w.rooms.entries[r].visibility && room.password == w.rooms.entries[r].password
                     && room.maxMembers == w.rooms.entries[r].maxMembers && room.ownerId == w.rooms.entries[r].ownerId
                     && room.banned == w.rooms.entries[r].banned && v.publicRooms == w.publicRooms
                     && room.members.entries - {n} == w.rooms.entries[r].members.entries - {n})
               && (r !in w.rooms.entries ==> room.maxMembers == 100 && room.banned == {})
               && v.rooms.entries - {r} == w.rooms.entries - {r}
  {
  }

  // ---------------------------------------------------------------- the single rooms

  /** A tick tells everyone in the room its size, the members being one per id. */
  lemma TickExactly(s: State, r: RoomId)
    requires RoomsOk(s.w) && MembersRegistered(s.w) && r in s.w.rooms.entries
    ensures var members := s.w.rooms.entries[r].members.entries.Keys;
            Informs(s, AfterTick(s, r), members, RoomSync(r, |members|))
  {
    var members := s.w.rooms.entries[r].members.entries;
    AudienceIsRoom(s.w, r, {});
    assert members.Keys - {} == members.Keys && |members| == |members.Keys|;
    BroadcastExactly(s, r, RoomSync(r, |members|), {});
  }

  /** Whoever stays in a room hears once that a member left it. */
  lemma LeaveTold(s: State, n: NodeId, r: RoomId)
    requires RoomsOk(s.w) && MembersRegistered(s.w) && InRoom(s.w, n, r)
    ensures var members := s.w.rooms.entries[r].members.entries;
            Informs(s.(w := Expel(s.w, n, r)), Remove(s, n, r), members.Keys - {n}, MemberLeft(n, members[n].username))
  {
    var w, members := Expel(s.w, n, r), s.w.rooms.entries[r].members.entries;
    ExpelKeepsRooms(s.w, n, r);
    ExpelEffect(s.w, n, r);
    BroadcastExactly(s.(w := w), r, MemberLeft(n, members[n].username), {});
    AudienceIsRoom(w, r, {});
    assert w.rooms.entries[r].members.entries.Keys - {} == members.Keys - {n};
  }
}
