/** Who is told what: the log of the room server's responses over every run. */
module RoomLog {
  import opened Bytes
  import opened PyDict
  import opened RoomState
  import opened RoomInvariants
  import opened RoomMembership

  // ---------------------------------------------------------------- one broadcast

  lemma {:induction false} DeliverLog(s: State, to: seq<Target>, packet: Packet)
    ensures var t := Deliver(s, to, packet);
            && t.sequence == s.sequence + |to| && |t.log| == |s.log| + |to| && t.log[..|s.log|] == s.log
            && forall i :: |s.log| <= i < |t.log| ==>
                 var k := i - |s.log|; t.log[i] == Sent(s.sequence + 1 + k, to[k].0, to[k].1, packet)
  {
    if to != [] {
      DeliverLog(s, to[..|to| - 1], packet);
    }
  }

  /** The targets are the nodes of the audience, each once, with their registered connections. */
  ghost predicate Reaches(to: seq<Target>, clients: map<NodeId, ConnId>, audience: set<NodeId>) {
    && (forall i :: 0 <= i < |to| ==>
          to[i].0 in audience && to[i].0 in clients && to[i].1 == clients[to[i].0])
    && (forall i, j :: 0 <= i < j < |to| ==> to[i].0 != to[j].0)
    && (forall n :: n in audience ==> exists i :: 0 <= i < |to| && to[i].0 == n)
  }

  lemma ReachesOneMore(to: seq<Target>, clients: map<NodeId, ConnId>, audience: set<NodeId>, n: NodeId)
    requires Reaches(to, clients, audience) && n !in audience && n in clients
    ensures Reaches(to + [(n, clients[n])], clients, audience + {n})
  {
    var more := to + [(n, clients[n])];
    forall m | m in audience + {n} ensures exists i :: 0 <= i < |more| && more[i].0 == m {
      if m == n {
        assert more[|to|].0 == m;
      } else {
        var i :| 0 <= i < |to| && to[i].0 == m;
        assert more[i].0 == m;
      }
    }
  }

  function Registrants(clients: map<NodeId, ConnId>, ns: seq<NodeId>, exclude: set<NodeId>): set<NodeId> {
    set n | n in ns && n in clients && n !in exclude
  }

  lemma {:induction false} TargetsExactly(clients: map<NodeId, ConnId>, r: RoomId, room: Room, k: nat,
                                          exclude: set<NodeId>)
    requires RoomOk(r, room) && k <= |room.members.order|
    ensures Reaches(Targets(clients, room, k, exclude), clients, Registrants(clients, room.members.order[..k], exclude))
  {
    if k > 0 {
      TargetsExactly(clients, r, room, k - 1, exclude);
      var n := room.members.order[k - 1];
      assert n in room.members.order && n in room.members.entries;
      assert forall i :: 0 <= i < k - 1 ==> room.members.order[i] != n;
      TakeSnoc(room.members.order, k - 1);
      RegistrantsSnoc(clients, room.members.order[..k - 1], n, exclude);
      if n in clients && n !in exclude {
        ReachesOneMore(Targets(clients, room, k - 1, exclude), clients,
                       Registrants(clients, room.members.order[..k - 1], exclude), n);
      }
    }
  }

  lemma RegistrantsSnoc(clients: map<NodeId, ConnId>, ns: seq<NodeId>, n: NodeId, exclude: set<NodeId>)
    ensures Registrants(clients, ns + [n], exclude) ==
            Registrants(clients, ns, exclude) + if n in clients && n !in exclude then {n} else {}
  {
  }

  /** The registered members of a room that are not excluded. */
  function Audience(w: World, r: RoomId, exclude: set<NodeId>): set<NodeId> {
    if r in w.rooms.entries then
      set n | n in w.rooms.entries[r].members.entries && n in w.clients.entries && n !in exclude
    else {}
  }

  /** From `s` to `t` every node of the audience is sent the packet once, nobody else anything, under fresh numbers. */
  ghost predicate Informs(s: State, t: State, audience: set<NodeId>, packet: Packet) {
    && |s.log| <= |t.log| && t.log[..|s.log|] == s.log
    && (forall i :: |s.log| <= i < |t.log| ==>
          var e := t.log[i];
          && e.packet == packet && e.sequence == s.sequence + 1 + (i - |s.log|)
          && e.node in audience && e.node in s.w.clients.entries && e.conn == s.w.clients.entries[e.node])
    && (forall i, j :: |s.log| <= i < j < |t.log| ==> t.log[i].node != t.log[j].node)
    && (forall n :: n in audience ==> exists i :: |s.log| <= i < |t.log| && t.log[i].node == n)
  }

  lemma BroadcastExactly(s: State, r: RoomId, packet: Packet, exclude: set<NodeId>)
    requires RoomsOk(s.w)
    ensures Informs(s, Broadcast(s, r, packet, exclude), Audience(s.w, r, exclude), packet)
  {
    if r in s.w.rooms.entries {
      var room := s.w.rooms.entries[r];
      var k := |room.members.order|;
      TargetsExactly(s.w.clients.entries, r, room, k, exclude);
      assert room.members.order[..k] == room.members.order;
      assert Audience(s.w, r, exclude) == Registrants(s.w.clients.entries, room.members.order, exclude);
      DeliveredInforms(s, Targets(s.w.clients.entries, room, k, exclude), Audience(s.w, r, exclude), packet);
    }
  }

  lemma DeliveredInforms(s: State, to: seq<Target>, audience: set<NodeId>, packet: Packet)
    requires Reaches(to, s.w.clients.entries, audience)
    ensures Informs(s, Deliver(s, to, packet), audience, packet)
  {
    var t, k := Deliver(s, to, packet), |s.log|;
    DeliverLog(s, to, packet);
    forall n | n in audience ensures exists i :: k <= i < |t.log| && t.log[i].node == n {
      var i :| 0 <= i < |to| && to[i].0 == n;
      assert t.log[k + i].node == n;
    }
  }

  /** Every member is registered, as it is whenever the two copies of membership agree in either direction. */
  ghost predicate MembersRegistered(w: World) {
    forall n, r :: InRoom(w, n, r) ==> n in w.clients.entries
  }

  /** Then no member is missed: the audience is the room without the excluded. */
  lemma AudienceIsRoom(w: World, r: RoomId, exclude: set<NodeId>)
    requires MembersRegistered(w) && r in w.rooms.entries
    ensures Audience(w, r, exclude) == w.rooms.entries[r].members.entries.Keys - exclude
  {
    assert forall n :: n in w.rooms.entries[r].members.entries <==> InRoom(w, n, r);
  }

  // ---------------------------------------------------------------- one step

  /** What may stand in an entry of the log issued by step `l` in tables `w`. */
  ghost predicate Proper(w: World, l: Label, e: Sent) {
    && NotToSelf(e)
    && (e.packet.Chat? ==>
          && l.Receive? && l.request.Say? && l.request.message == e.packet.message
          && MaySpeak(w, l.conn, e.packet.senderId, l.request.room) && InRoom(w, e.node, l.request.room))
  }

  /** Nobody is told of their own joining or leaving. */
  predicate NotToSelf(e: Sent) {
    e.packet.MemberJoined? || e.packet.MemberLeft? ==> e.packet.nodeId != e.node
  }

  ghost predicate Extends(s: State, t: State, w: World, l: Label) {
    && |s.log| <= |t.log| && t.log[..|s.log|] == s.log && t.sequence - s.sequence == |t.log| - |s.log|
    && forall i :: |s.log| <= i < |t.log| ==>
         t.log[i].sequence == s.sequence + 1 + (i - |s.log|) && Proper(w, l, t.log[i])
  }

  lemma ExtendsTwice(s: State, t: State, u: State, w: World, l: Label)
    requires Extends(s, t, w, l) && Extends(t, u, w, l)
    ensures Extends(s, u, w, l)
  {
    assert u.log[..|s.log|] == u.log[..|t.log|][..|s.log|];
    forall i | |s.log| <= i < |u.log|
      ensures u.log[i].sequence == s.sequence + 1 + (i - |s.log|) && Proper(w, l, u.log[i])
    {
      if i < |t.log| {
        assert u.log[i] == u.log[..|t.log|][i] == t.log[i];
      }
    }
  }

  /** A single response, none of the kinds that are only ever broadcast. */
  lemma ResponseExtends(s: State, to: Target, packet: Packet, w: World, l: Label)
    requires Proper(w, l, Sent(s.sequence + 1, to.0, to.1, packet))
    ensures Extends(s, Deliver(s, [to], packet), w, l)
  {
    DeliverLog(s, [to], packet);
  }

  lemma BroadcastExtends(s: State, r: RoomId, packet: Packet, exclude: set<NodeId>, w: World, l: Label)
    requires RoomsOk(s.w)
    requires forall e: Sent {:trigger Proper(w, l, e)} ::
               e.packet == packet && e.node in Audience(s.w, r, exclude) ==> Proper(w, l, e)
    ensures Extends(s, Broadcast(s, r, packet, exclude), w, l)
  {
    var t := Broadcast(s, r, packet, exclude);
    BroadcastExactly(s, r, packet, exclude);
    if r in s.w.rooms.entries {
      var room := s.w.rooms.entries[r];
      DeliverLog(s, Targets(s.w.clients.entries, room, |room.members.order|, exclude), packet);
    }
    forall i | |s.log| <= i < |t.log| ensures Proper(w, l, t.log[i]) {
    }
  }

  lemma RemovedHearsNothing(w: World, n: NodeId, r: RoomId)
    ensures n !in Audience(Expel(w, n, r), r, {})
  {
  }

  lemma RemoveExtends(s: State, n: NodeId, r: RoomId, w: World, l: Label)
    requires RoomsOk(s.w)
    ensures Extends(s, Remove(s, n, r), w, l)
  {
    if InRoom(s.w, n, r) {
      var t := s.(w := Expel(s.w, n, r));
      var packet := MemberLeft(n, s.w.rooms.entries[r].members.entries[n].username);
      ExpelKeepsRooms(s.w, n, r);
      RemovedHearsNothing(s.w, n, r);
      BroadcastExtends(t, r, packet, {}, w, l);
    }
  }

  lemma {:induction false} RemoveAllExtends(s: State, n: NodeId, rooms: seq<RoomId>, w: World, l: Label)
    requires RoomsOk(s.w)
    ensures Extends(s, RemoveAll(s, n, rooms), w, l)
  {
    if rooms != [] {
      var t := RemoveAll(s, n, rooms[..|rooms| - 1]);
      RemoveAllExtends(s, n, rooms[..|rooms| - 1], w, l);
      ExpelAllKeepsRooms(s.w, n, rooms[..|rooms| - 1]);
      RemoveExtends(t, n, rooms[|rooms| - 1], w, l);
      ExtendsTwice(s, t, RemoveAll(s, n, rooms), w, l);
    }
  }

  lemma {:induction false} SyncRoomsExtends(s: State, n: NodeId, rooms: seq<RoomId>, packet: Packet, l: Label)
    requires RoomsOk(s.w) && packet.StateSync?
    ensures Extends(s, SyncRooms(s, n, rooms, packet), s.w, l)
  {
    if rooms != [] {
      var t := SyncRooms(s, n, rooms[..|rooms| - 1], packet);
      SyncRoomsExtends(s, n, rooms[..|rooms| - 1], packet, l);
      if InRoom(s.w, n, rooms[|rooms| - 1]) {
        BroadcastExtends(t, rooms[|rooms| - 1], packet, {n}, s.w, l);
        ExtendsTwice(s, t, SyncRooms(s, n, rooms, packet), s.w, l);
      }
    }
  }

  lemma WelcomeExtends(s: State, c: ConnId, n: NodeId, r: RoomId, w: World, l: Label)
    requires RoomsOk(s.w) && c in s.w.sessions && r in s.w.rooms.entries
    ensures Extends(s, Welcome(s, c, n, r), w, l)
  {
    var room := s.w.rooms.entries[r];
    var packet := MemberJoined(n, s.w.sessions[c].username);
    var u := Broadcast(s, r, packet, {n});
    BroadcastExtends(s, r, packet, {n}, w, l);
    ResponseExtends(u, (n, c), JoinOk(Card(room), room.members.order), w, l);
    ExtendsTwice(s, u, Welcome(s, c, n, r), w, l);
  }

  lemma JoinExtends(s: State, c: ConnId, r: RoomId, password: Option<string>, l: Label)
    requires RoomsOk(s.w)
    ensures Extends(s, AfterJoin(s, c, r, password), s.w, l)
  {
    if Sender(s.w, c).Some? {
      var n := Sender(s.w, c).value;
      var t := s.(w := OpenRoom(s.w, n, r, password));
      var why := JoinCheck(t.w.rooms.entries[r], n, password);
      JoinKeepsRooms(s.w, c, r, password);
      if why.Some? {
        ResponseExtends(t, (n, c), JoinRefused(why.value), s.w, l);
      } else {
        WelcomeExtends(t.(w := Admit(t.w, c, n, r)), c, n, r, s.w, l);
      }
    }
  }

  lemma SayExtends(s: State, c: ConnId, r: RoomId, message: string)
    requires RoomsOk(s.w)
    ensures Extends(s, AfterSay(s, c, r, message), s.w, Receive(c, Say(r, message)))
  {
    if Sender(s.w, c).Some? && MaySpeak(s.w, c, Sender(s.w, c).value, r) {
      var n := Sender(s.w, c).value;
      var packet := Chat(n, s.w.rooms.entries[r].members.entries[n].username, message);
      BroadcastExtends(s, r, packet, {}, s.w, Receive(c, Say(r, message)));
    }
  }

  lemma HandleExtends(s: State, c: ConnId, q: Request)
    requires RoomsOk(s.w)
    ensures Extends(s, Handle(s, c, q), s.w, Receive(c, q))
  {
    var l := Receive(c, q);
    match q
    case Auth(n, username, platform) =>
      ResponseExtends(s.(w := Authenticated(s.w, c, n, username, platform)), (n, c), AuthOk(n), s.w, l);
    case Join(r, password) => JoinExtends(s, c, r, password, l);
    case Leave(r) =>
      if Sender(s.w, c).Some? {
        RemoveExtends(s, Sender(s.w, c).value, r, s.w, l);
      }
    case Say(r, message) => SayExtends(s, c, r, message);
    case Direct(target, message) =>
      if Sender(s.w, c).Some? && target in s.w.clients.entries {
        ResponseExtends(s, (target, s.w.clients.entries[target]),
                        DirectMessage(Sender(s.w, c).value, s.w.sessions[c].username, message), s.w, l);
      }
    case Sync(syncType, data, stamp, order) =>
      if Sender(s.w, c).Some? {
        var n := Sender(s.w, c).value;
        SyncRoomsExtends(s, n, order, StateSync(syncType, n, data, stamp), l);
      }
    case ListRooms(order) =>
      if Sender(s.w, c).Some? {
        ResponseExtends(s, (Sender(s.w, c).value, c), RoomList(Cards(s.w, order)), s.w, l);
      }
  }

  lemma StepExtends(s: State, l: Label)
    requires RoomsOk(s.w)
    ensures Extends(s, Step(s, l), s.w, l)
  {
    match l
    case Receive(c, q) => HandleExtends(s, c, q);
    case Accept(c, now) =>
    case Close(c, order) =>
      if c in s.w.sessions && s.w.sessions[c].nodeId.Some? {
        RemoveAllExtends(s, s.w.sessions[c].nodeId.value, order, s.w, l);
      }
    case Evict(n, order) => RemoveAllExtends(s, n, order, s.w, l);
    case Tick(r) =>
      if r in s.w.rooms.entries {
        BroadcastExtends(s, r, RoomSync(r, |s.w.rooms.entries[r].members.entries|), {}, s.w, l);
      }
    case CreateRoom(_, _, _, _) =>
    case Ban(_, _) =>
  }

  // ---------------------------------------------------------------- over whole runs

  /** Over every run the responses carry the numbers 1, 2, 3, ... without a gap, and none tells a node of itself. */
  lemma {:induction false} LogOverRuns(serverId: NodeId, ls: seq<Label>)
    requires PossibleRun(Initial(serverId), ls)
    ensures var s := Run(Initial(serverId), ls);
            s.sequence == |s.log| && forall i :: 0 <= i < |s.log| ==> s.log[i].sequence == i + 1 && NotToSelf(s.log[i])
  {
    if ls != [] {
      var s, t := Run(Initial(serverId), ls[..|ls| - 1]), Run(Initial(serverId), ls);
      LogOverRuns(serverId, ls[..|ls| - 1]);
      RoomsOverRuns(serverId, ls[..|ls| - 1]);
      StepExtends(s, ls[|ls| - 1]);
      assert forall i :: 0 <= i < |s.log| ==> t.log[i] == t.log[..|s.log|][i];
    }
  }

  /** Step `k` of the run is the chat request this entry answers, made by a member who may speak, for a member. */
  ghost predicate Spoken(s: State, ls: seq<Label>, k: nat, e: Sent)
    requires k < |ls| && e.packet.Chat?
  {
    var w, l := Run(s, ls[..k]).w, ls[k];
    && l.Receive? && l.request.Say? && l.request.message == e.packet.message
    && MaySpeak(w, l.conn, e.packet.senderId, l.request.room) && InRoom(w, e.node, l.request.room)
  }

  lemma LastStepExtends(serverId: NodeId, ls: seq<Label>)
    requires PossibleRun(Initial(serverId), ls) && ls != []
    ensures var s := Run(Initial(serverId), ls[..|ls| - 1]);
            Extends(s, Run(Initial(serverId), ls), s.w, ls[|ls| - 1])
  {
    RoomsOverRuns(serverId, ls[..|ls| - 1]);
    StepExtends(Run(Initial(serverId), ls[..|ls| - 1]), ls[|ls| - 1]);
  }

  /** No chat message reaches anybody except through a step in which its sender could speak in the receiver's room. */
  lemma {:induction false} ChatProvenance(serverId: NodeId, ls: seq<Label>, i: nat) returns (k: nat)
    requires PossibleRun(Initial(serverId), ls) && i < |Run(Initial(serverId), ls).log|
    requires Run(Initial(serverId), ls).log[i].packet.Chat?
    ensures k < |ls| && Spoken(Initial(serverId), ls, k, Run(Initial(serverId), ls).log[i])
  {
    var init := ls[..|ls| - 1];
    var s, t := Run(Initial(serverId), init), Run(Initial(serverId), ls);
    LastStepExtends(serverId, ls);
    if i < |s.log| {
      assert t.log[i] == t.log[..|s.log|][i] == s.log[i];
      k := ChatProvenance(serverId, init, i);
      assert init[..k] == ls[..k];
    } else {
      k := |ls| - 1;
    }
  }

  // ---------------------------------------------------------------- what a chat request comes to

  function Rank(role: Role): nat {
    match role case VISITOR => 0 case MEMBER => 1 case MODERATOR => 2 case ADMIN => 3 case OWNER => 4
  }

  /** The permissions by the lowest role that has them: what a role may, every higher one may. */
  lemma PermissionsExactly(role: Role, permission: Permission)
    ensures Allows(role, permission) <==>
            match permission
            case SEND_MESSAGE => Rank(role) >= 1
            case SEND_MEDIA => Rank(role) >= 1
            case KICK_MEMBER => Rank(role) >= 2
            case DELETE_MESSAGE => Rank(role) >= 2
            case _ => Rank(role) >= 3
  {
  }

  /** The permission check never turns a member away: every role a room hands out may send messages. */
  lemma MembersMaySpeak(w: World, c: ConnId, r: RoomId)
    requires RoomsOk(w) && MembersAreClients(w) && Registered(w, c) && w.sessions[c].open
    ensures MaySpeak(w, c, w.sessions[c].nodeId.value, r) <==> InRoom(w, w.sessions[c].nodeId.value, r)
  {
    var n := w.sessions[c].nodeId.value;
    if InRoom(w, n, r) {
      assert r in RoomsOf(w, n);
      assert RoomOk(r, w.rooms.entries[r]);
    }
  }

  lemma SayInforms(s: State, c: ConnId, n: NodeId, r: RoomId, message: string)
    requires RoomsOk(s.w) && MaySpeak(s.w, c, n, r)
    ensures Informs(s, AfterSay(s, c, r, message), Audience(s.w, r, {}),
                    Chat(n, s.w.rooms.entries[r].members.entries[n].username, message))
  {
    BroadcastExactly(s, r, Chat(n, s.w.rooms.entries[r].members.entries[n].username, message), {});
  }

  /** While members are clients, a registered sender reaches the whole room if in it, and nobody if not. */
  lemma SayExactly(s: State, c: ConnId, r: RoomId, message: string)
    requires RoomsOk(s.w) && MembersAreClients(s.w) && Registered(s.w, c) && s.w.sessions[c].open
    ensures var n := s.w.sessions[c].nodeId.value;
            if InRoom(s.w, n, r) then
              var members := s.w.rooms.entries[r].members.entries;
              Informs(s, AfterSay(s, c, r, message), members.Keys, Chat(n, members[n].username, message))
            else AfterSay(s, c, r, message) == s
  {
    var n := s.w.sessions[c].nodeId.value;
    MembersMaySpeak(s.w, c, r);
    if InRoom(s.w, n, r) {
      SayInforms(s, c, n, r, message);
      AudienceIsRoom(s.w, r, {});
      assert Audience(s.w, r, {}) == s.w.rooms.entries[r].members.entries.Keys;
    }
  }

  // ---------------------------------------------------------------- the room list

  lemma {:induction false} CardsOf(w: World, rooms: seq<RoomId>)
    requires RoomsOk(w) && forall r :: r in rooms ==> r in w.rooms.entries
    ensures |Cards(w, rooms)| == |rooms|
    ensures forall i :: 0 <= i < |rooms| ==> Cards(w, rooms)[i] == Card(w.rooms.entries[rooms[i]])
  {
    if rooms != [] {
      CardsOf(w, rooms[..|rooms| - 1]);
    }
  }

  /** The card gives the room's present settings and how many are in it. */
  predicate Shows(card: RoomCard, room: Room) {
    && card.roomId == room.roomId && card.visibility == room.visibility && card.ownerId == room.ownerId
    && card.maxMembers == room.maxMembers && card.memberCount == |room.members.entries|
  }

  /** Every public room once, as it stands, and nothing else. */
  ghost predicate ListsPublicRooms(w: World, cards: seq<RoomCard>) {
    && (forall i, j :: 0 <= i < j < |cards| ==> cards[i].roomId != cards[j].roomId)
    && (forall r :: r in w.rooms.entries && w.rooms.entries[r].visibility == PUBLIC ==>
          exists i :: 0 <= i < |cards| && cards[i].roomId == r)
    && (forall i :: 0 <= i < |cards| ==>
          var r := cards[i].roomId;
          r in w.rooms.entries && w.rooms.entries[r].visibility == PUBLIC && Shows(cards[i], w.rooms.entries[r]))
  }

  lemma CardsExact(w: World, order: seq<RoomId>)
    requires RoomsOk(w) && Enumerates(order, w.publicRooms)
    ensures ListsPublicRooms(w, Cards(w, order))
  {
    CardsOf(w, order);
    CardsList(w, order, Cards(w, order));
  }

  lemma CardsList(w: World, order: seq<RoomId>, cards: seq<RoomCard>)
    requires RoomsOk(w) && Enumerates(order, w.publicRooms) && |cards| == |order|
    requires forall i :: 0 <= i < |order| ==> order[i] in w.rooms.entries && cards[i] == Card(w.rooms.entries[order[i]])
    ensures ListsPublicRooms(w, cards)
  {
    assert forall i :: 0 <= i < |order| ==> cards[i].roomId == order[i] && order[i] in w.publicRooms;
    forall r | r in w.rooms.entries && w.rooms.entries[r].visibility == PUBLIC
      ensures exists i :: 0 <= i < |cards| && cards[i].roomId == r
    {
      assert r in order;
      var i :| 0 <= i < |order| && order[i] == r;
      assert cards[i].roomId == r;
    }
  }

  /** A room list request is answered once, to its sender, with every public room once and nothing else. */
  lemma RoomListExact(s: State, c: ConnId, order: seq<RoomId>)
    requires RoomsOk(s.w) && Enumerates(order, s.w.publicRooms)
    ensures var t := AfterListRooms(s, c, order);
            if Sender(s.w, c).None? then t == s
            else
              && |t.log| == |s.log| + 1 && t.log[..|s.log|] == s.log && t.w == s.w
              && var e := t.log[|s.log|];
                 && e.sequence == s.sequence + 1 && e.node == Sender(s.w, c).value && e.conn == c
                 && e.packet.RoomList? && ListsPublicRooms(s.w, e.packet.rooms)
  {
    if Sender(s.w, c).Some? {
      CardsExact(s.w, order);
      DeliverLog(s, [(Sender(s.w, c).value, c)], RoomList(Cards(s.w, order)));
    }
  }
}
