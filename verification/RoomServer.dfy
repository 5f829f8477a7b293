/** The room server's objects: every handler takes the server from one state of `RoomState` to the next. */
module RoomServer {
  import opened Bytes
  import opened PyDict
  import opened RoomState
  import opened RoomInvariants

  class RoomInfo {
    const roomId: RoomId
    const visibility: Visibility
    const password: Option<string>
    const maxMembers: int
    const ownerId: NodeId
    var members: Dict<NodeId, Member>
    var banned: set<NodeId>

    constructor (roomId: RoomId, visibility: Visibility, password: Option<string>, maxMembers: int, ownerId: NodeId)
      ensures View() == Room(roomId, visibility, password, maxMembers, ownerId, Empty(), {})
    {
      this.roomId, this.visibility, this.password := roomId, visibility, password;
      this.maxMembers, this.ownerId := maxMembers, ownerId;
      members, banned := Empty(), {};
    }

    function View(): Room
      reads this
    {
      Room(roomId, visibility, password, maxMembers, ownerId, members, banned)
    }

    method AddMember(member: Member) returns (added: bool)
      modifies this
      ensures added <==> member.nodeId !in old(banned) && !old(View()).IsFull()
      ensures View() == if added then old(View()).(members := Put(old(members), member.nodeId, member)) else old(View())
    {
      if member.nodeId in banned {
        return false;
      }
      if |members.entries| >= maxMembers {
        return false;
      }
      members := Put(members, member.nodeId, member);
      return true;
    }

    method RemoveMember(n: NodeId) returns (removed: bool)
      modifies this`members
      ensures removed <==> n in old(members).entries
      ensures View() == old(View()).(members := Del(old(members), n))
    {
      removed := n in members.entries;
      if removed {
        members := Del(members, n);
      }
    }

    method BanMember(n: NodeId) returns (removed: bool)
      modifies this
      ensures removed <==> n in old(members).entries
      ensures View() == old(View()).(members := Del(old(members), n), banned := old(banned) + {n})
    {
      banned := banned + {n};
      removed := RemoveMember(n);
    }
  }

  /** The `client_info` dictionary of one connection, shared by its handler and the client table. */
  class ClientInfo {
    ghost const id: ConnId
    var info: Session

    constructor (ghost id: ConnId, now: real)
      ensures this.id == id && info == Session(None, "Unknown", "java", {}, now, true)
    {
      this.id, info := id, Session(None, "Unknown", "java", {}, now, true);
    }
  }

  /** The same nodes in the same order, with the records of the connections in the table. */
  ghost predicate SameClients(t: Dict<NodeId, ConnId>, clients: Dict<NodeId, ClientInfo>,
                              infos: map<ConnId, ClientInfo>)
  {
    && t.order == clients.order && t.entries.Keys == clients.entries.Keys
    && forall n :: n in clients.entries ==>
         var client := clients.entries[n]; client.id == t.entries[n] && client.id in infos && infos[client.id] == client
  }

  lemma SameWith(t: Dict<NodeId, ConnId>, clients: Dict<NodeId, ClientInfo>, infos: map<ConnId, ClientInfo>, n: NodeId,
                 client: ClientInfo)
    requires SameClients(t, clients, infos) && client.id in infos && infos[client.id] == client
    ensures SameClients(Put(t, n, client.id), Put(clients, n, client), infos)
  {
  }

  lemma SameWithout(t: Dict<NodeId, ConnId>, clients: Dict<NodeId, ClientInfo>, infos: map<ConnId, ClientInfo>,
                    n: NodeId)
    requires SameClients(t, clients, infos)
    ensures SameClients(Del(t, n), Del(clients, n), infos)
  {
  }

  class FastLinkServer {
    const nodeId: NodeId
    var rooms: Dict<RoomId, RoomInfo>
    var publicRooms: set<RoomId>
    var clients: Dict<NodeId, ClientInfo>
    var sequence: nat

    /** The `client_info` record of every connection there has been. */
    ghost var infos: map<ConnId, ClientInfo>

    /** The objects behind `rooms` and `infos`, for the frames. */
    ghost var roomSet: set<RoomInfo>
    ghost var infoSet: set<ClientInfo>

    /** The tables the objects stand for, and the responses issued so far. */
    ghost var w: World
    ghost var log: seq<Sent>

    ghost predicate Valid()
      reads `w, `rooms, `publicRooms, `clients, `infos, `roomSet, `infoSet, roomSet, infoSet
    {
      && w.serverId == nodeId && w.publicRooms == publicRooms
      && RoomsMatch(w.rooms) && ClientsMatch(w.clients) && InfosMatch(w.sessions)
    }

    ghost predicate RoomsMatch(t: Dict<RoomId, Room>)
      reads `rooms, `roomSet, roomSet
    {
      && t.order == rooms.order && t.entries.Keys == rooms.entries.Keys
      && forall r :: r in rooms.entries ==>
           rooms.entries[r] in roomSet && rooms.entries[r].roomId == r && rooms.entries[r].View() == t.entries[r]
    }

    /** The same while the object of room `r` is ahead of the table. */
    ghost predicate ValidBut(r: RoomId)
      reads `w, `rooms, `publicRooms, `clients, `infos, `roomSet, `infoSet, roomSet, infoSet
    {
      && w.serverId == nodeId && w.publicRooms == publicRooms && r in rooms.entries
      && RoomsMatchBut(w.rooms, r) && ClientsMatch(w.clients) && InfosMatch(w.sessions)
    }

    ghost predicate RoomsMatchBut(t: Dict<RoomId, Room>, r: RoomId)
      reads `rooms, `roomSet, roomSet
    {
      && t.order == rooms.order && t.entries.Keys == rooms.entries.Keys
      && forall q :: q in rooms.entries ==>
           && rooms.entries[q] in roomSet && rooms.entries[q].roomId == q
           && (q == r || rooms.entries[q].View() == t.entries[q])
    }

    lemma PutMatches(t: Dict<RoomId, Room>, r: RoomId)
      requires r in rooms.entries && RoomsMatchBut(t, r)
      ensures RoomsMatch(Put(t, r, rooms.entries[r].View()))
    {
    }

    /** The table catches up. */
    ghost method Record(r: RoomId)
      requires ValidBut(r)
      modifies `w
      ensures Valid() && w == old(w).(rooms := Put(old(w).rooms, r, rooms.entries[r].View()))
    {
      PutMatches(w.rooms, r);
      w := w.(rooms := Put(w.rooms, r, rooms.entries[r].View()));
    }

    ghost predicate ClientsMatch(t: Dict<NodeId, ConnId>)
      reads `clients, `infos
    {
      SameClients(t, clients, infos)
    }

    ghost predicate InfosMatch(t: map<ConnId, Session>)
      reads `infos, `infoSet, infoSet
    {
      && t.Keys == infos.Keys
      && forall c :: c in infos ==> infos[c] in infoSet && infos[c].id == c && infos[c].info == t[c]
    }

    ghost predicate Knows(client: ClientInfo)
      reads `infos
    {
      client.id in infos && infos[client.id] == client
    }

    ghost function State(): State
      reads `w, `sequence, `log
    {
      RoomState.State(w, sequence, log)
    }

    constructor (nodeId: NodeId)
      ensures Valid() && State() == Initial(nodeId)
    {
      this.nodeId := nodeId;
      rooms, publicRooms, clients, sequence := Empty(), {}, Empty(), 0;
      infos, roomSet, infoSet, w, log := map[], {}, {}, Initial(nodeId).w, [];
    }

    method NextSequence() returns (n: nat)
      modifies `sequence
      ensures n == sequence == old(sequence) + 1
    {
      sequence := sequence + 1;
      n := sequence;
    }

    /** The payload is encoded and the number taken before anything can fail; the write itself is not modelled. */
    method SendResponse(client: ClientInfo, ghost node: NodeId, packet: Packet)
      requires Valid()
      modifies `sequence, `log
      ensures Valid() && State() == Deliver(old(State()), [(node, client.id)], packet)
    {
      assert Deliver(State(), [], packet) == State();
      var number := NextSequence();
      log := log + [Sent(number, node, client.id, packet)];
    }

    /** One turn of the loop of a broadcast. */
    method SendToMember(member: Member, packet: Packet, exclude: set<NodeId>)
      requires Valid()
      modifies `sequence, `log
      ensures Valid()
      ensures State() ==
              if member.nodeId !in exclude && member.nodeId in w.clients.entries then
                Deliver(old(State()), [(member.nodeId, w.clients.entries[member.nodeId])], packet)
              else old(State())
    {
      if member.nodeId !in exclude && member.nodeId in clients.entries {
        SendResponse(clients.entries[member.nodeId], member.nodeId, packet);
      }
    }

    method BroadcastToRoom(r: RoomId, packet: Packet, exclude: set<NodeId>)
      requires Valid()
      modifies `sequence, `log
      ensures Valid() && State() == Broadcast(old(State()), r, packet, exclude)
    {
      if r !in rooms.entries {
        return;
      }
      var members := rooms.entries[r].members;
      ghost var known, view := w.clients.entries, w.rooms.entries[r];
      for k := 0 to |members.order|
        invariant Valid() && State() == Deliver(old(State()), Targets(known, view, k, exclude), packet)
      {
        assert members.order[k] in members.order;
        var member := members.entries[members.order[k]];
        SendToMember(member, packet, exclude);
        if member.nodeId in known {
          DeliverSnoc(old(State()), Targets(known, view, k, exclude), (member.nodeId, known[member.nodeId]), packet);
        }
      }
    }

    /** `room.remove_member`, once the node is known to be inside. */
    method TakeMemberOut(n: NodeId, r: RoomId) returns (username: string)
      requires Valid() && InRoom(w, n, r)
      modifies `w, rooms.entries[r]
      ensures Valid() && w == TakeOut(old(w), n, r)
      ensures username == old(w).rooms.entries[r].members.entries[n].username
    {
      var room := rooms.entries[r];
      username := room.members.entries[n].username;
      var _ := room.RemoveMember(n);
      Record(r);
    }

    method DiscardRoom(n: NodeId, r: RoomId)
      requires Valid()
      modifies `w, infoSet
      ensures Valid() && w == Discard(old(w), n, r)
    {
      if n in clients.entries {
        var client := clients.entries[n];
        SetInfo(client, client.info.(rooms := client.info.rooms - {r}));
      }
    }

    method RemoveMember(n: NodeId, r: RoomId)
      requires Valid() && InRoom(w, n, r)
      modifies `w, `sequence, `log, rooms.entries[r]
      ensures Valid() && State() == Broadcast(old(State()).(w := TakeOut(old(w), n, r)), r,
                                              MemberLeft(n, old(w).rooms.entries[r].members.entries[n].username), {})
    {
      var username := TakeMemberOut(n, r);
      BroadcastToRoom(r, MemberLeft(n, username), {});
    }

    method RemoveFromRoom(n: NodeId, r: RoomId)
      requires Valid()
      modifies `w, `sequence, `log, roomSet, infoSet
      ensures Valid() && State() == Remove(old(State()), n, r)
    {
      ghost var s := State();
      if r in rooms.entries && n in rooms.entries[r].members.entries {
        RemoveMember(n, r);
      }
      DiscardRoom(n, r);
      RemoveInOrder(s, n, r);
    }

    /** Walks a copy of the client's set of rooms; `order` is the order in which it does. */
    method DisconnectClient(n: NodeId) returns (ghost order: seq<RoomId>)
      requires Valid()
      modifies `w, `clients, `sequence, `log, roomSet, infoSet
      ensures Valid() && Enumerates(order, RoomsOf(old(w), n))
      ensures State() == Disconnect(old(State()), n, order)
    {
      order := [];
      if n in clients.entries {
        var list := ToList(clients.entries[n].info.rooms);
        order := list;
        RemoveFromAll(n, list);
        Unregister(n);
      }
    }

    method Unregister(n: NodeId)
      requires Valid()
      modifies `w, `clients
      ensures Valid() && w == old(w).(clients := Del(old(w).clients, n))
    {
      SameWithout(w.clients, clients, infos, n);
      w, clients := w.(clients := Del(w.clients, n)), Del(clients, n);
      assert ClientsMatch(w.clients) && RoomsMatch(w.rooms) && InfosMatch(w.sessions);
    }

    method RemoveFromAll(n: NodeId, list: seq<RoomId>)
      requires Valid()
      modifies `w, `sequence, `log, roomSet, infoSet
      ensures Valid() && State() == RemoveAll(old(State()), n, list)
    {
      for k := 0 to |list|
        invariant Valid() && State() == RemoveAll(old(State()), n, list[..k])
      {
        RemoveFromRoom(n, list[k]);
        assert list[..k + 1][..k] == list[..k];
      }
      assert list[..|list|] == list;
    }

    // -------------------------------------------------------------- connections

    /** The start of `_handle_client`; `id` is the new record's identity. */
    method Accept(ghost id: ConnId, now: real) returns (client: ClientInfo)
      requires Valid() && id !in infos
      modifies `w, `infos, `infoSet
      ensures Valid() && fresh(client) && client.id == id && Knows(client)
      ensures State() == Step(old(State()), RoomState.Accept(id, now))
    {
      client := new ClientInfo(id, now);
      AddInfo(client);
    }

    /** The record is known from now on. */
    ghost method AddInfo(client: ClientInfo)
      requires Valid() && client.id !in infos
      modifies `w, `infos, `infoSet
      ensures Valid() && Knows(client) && infoSet == old(infoSet) + {client}
      ensures w == old(w).(sessions := old(w).sessions[client.id := client.info])
    {
      infos, infoSet := infos[client.id := client], infoSet + {client};
      w := w.(sessions := w.sessions[client.id := client.info]);
    }

    /** The end of `_handle_client`. */
    method Close(client: ClientInfo) returns (ghost order: seq<RoomId>)
      requires Valid() && Knows(client) && client.info.open
      modifies `w, `clients, `sequence, `log, roomSet, infoSet
      ensures Valid() && Possible(old(w), RoomState.Close(client.id, order))
      ensures State() == AfterClose(old(State()), client.id, order)
    {
      order := [];
      if client.info.nodeId.Some? {
        order := DisconnectClient(client.info.nodeId.value);
      }
      SetInfo(client, client.info.(open := false));
    }

    method SetInfo(client: ClientInfo, info: Session)
      requires Valid() && Knows(client)
      modifies `w, client
      ensures Valid() && client.info == info && w == old(w).(sessions := old(w).sessions[client.id := info])
    {
      client.info := info;
      w := w.(sessions := w.sessions[client.id := info]);
    }

    // -------------------------------------------------------------- handlers

    /** `n` is the id the handler generates. */
    method HandleAuth(client: ClientInfo, n: NodeId, username: string, platform: string)
      requires Valid() && Knows(client) && client.info.open
      modifies `w, `clients, `sequence, `log, client
      ensures Valid() && State() == AfterAuth(old(State()), client.id, n, username, platform)
    {
      SetInfo(client, client.info.(nodeId := Some(n), username := username, platform := platform));
      Register(n, client);
      SendResponse(client, n, AuthOk(n));
    }

    method Register(n: NodeId, client: ClientInfo)
      requires Valid() && Knows(client)
      modifies `w, `clients
      ensures Valid() && w == old(w).(clients := Put(old(w).clients, n, client.id))
    {
      SameWith(w.clients, clients, infos, n, client);
      clients := Put(clients, n, client);
      w := w.(clients := Put(w.clients, n, client.id));
      assert ClientsMatch(w.clients) && RoomsMatch(w.rooms) && InfosMatch(w.sessions);
    }

    /** `self.rooms[room_id] = room`. */
    method PutRoom(room: RoomInfo)
      requires Valid() && room.roomId !in rooms.entries
      modifies `w, `rooms, `roomSet
      ensures Valid() && rooms == Put(old(rooms), room.roomId, room)
      ensures w == old(w).(rooms := Put(old(w).rooms, room.roomId, room.View()))
    {
      rooms, roomSet := Put(rooms, room.roomId, room), roomSet + {room};
      w := w.(rooms := Put(w.rooms, room.roomId, room.View()));
      assert ClientsMatch(w.clients) && RoomsMatch(w.rooms) && InfosMatch(w.sessions);
    }

    /** A new room goes into the public index as well if it is public. */
    method ListRoom(room: RoomInfo)
      requires Valid()
      modifies `w, `publicRooms
      ensures Valid()
      ensures w == old(w).(publicRooms := old(w).publicRooms + if room.visibility == PUBLIC then {room.roomId} else {})
    {
      if room.visibility == PUBLIC {
        publicRooms := publicRooms + {room.roomId};
      }
      w := w.(publicRooms := publicRooms);
    }

    method CreateRoom(r: RoomId, visibility: Visibility, password: Option<string>, maxMembers: int)
      requires Valid() && r !in rooms.entries
      modifies `w, `rooms, `roomSet, `publicRooms
      ensures Valid() && State() == old(State()).(w := Created(old(w), r, visibility, password, maxMembers))
    {
      var room := new RoomInfo(r, visibility, password, maxMembers, nodeId);
      PutRoom(room);
      ListRoom(room);
    }

    method OpenRoomFor(n: NodeId, r: RoomId, password: Option<string>)
      requires Valid()
      modifies `w, `rooms, `roomSet, `publicRooms
      ensures Valid() && w == OpenRoom(old(w), n, r, password)
      ensures r in rooms.entries && (rooms.entries[r] in old(roomSet) || fresh(rooms.entries[r]))
    {
      if r !in rooms.entries {
        var room := new RoomInfo(r, PUBLIC, password, 100, n);
        PutRoom(room);
        ListRoom(room);
      }
    }

    method PutMember(r: RoomId, member: Member)
      requires Valid() && r in rooms.entries
      requires member.nodeId !in rooms.entries[r].banned && !rooms.entries[r].View().IsFull()
      modifies `w, rooms.entries[r]
      ensures Valid()
      ensures var room := old(w).rooms.entries[r];
              w == old(w).(rooms := Put(old(w).rooms, r, room.(members := Put(room.members, member.nodeId, member))))
    {
      var room := rooms.entries[r];
      var added := room.AddMember(member);
      Record(r);
    }

    /** The part of a join after its checks; `add_member` repeats two of them, so it cannot refuse here. */
    method AddToRoom(client: ClientInfo, n: NodeId, r: RoomId)
      requires Valid() && Knows(client) && client.info.open && client.info.nodeId == Some(n)
      requires r in rooms.entries && n !in rooms.entries[r].banned && !rooms.entries[r].View().IsFull()
      modifies `w, client, rooms.entries[r]
      ensures Valid() && w == Admit(old(w), client.id, n, r)
    {
      var role := if rooms.entries[r].ownerId == n then OWNER else MEMBER;
      PutMember(r, Member(n, client.info.username, role, client.info.platform));
      SetInfo(client, client.info.(rooms := client.info.rooms + {r}));
    }

    method WelcomeMember(client: ClientInfo, n: NodeId, r: RoomId)
      requires Valid() && Knows(client) && r in rooms.entries
      modifies `sequence, `log
      ensures Valid() && State() == Welcome(old(State()), client.id, n, r)
    {
      BroadcastToRoom(r, MemberJoined(n, client.info.username), {n});
      var room := rooms.entries[r];
      SendResponse(client, n, JoinOk(Card(room.View()), room.members.order));
    }

    method AdmitMember(client: ClientInfo, n: NodeId, r: RoomId)
      requires Valid() && Knows(client) && client.info.open && client.info.nodeId == Some(n)
      requires r in rooms.entries && n !in rooms.entries[r].banned && !rooms.entries[r].View().IsFull()
      modifies `w, `sequence, `log, client, rooms.entries[r]
      ensures Valid() && State() == Welcome(old(State()).(w := Admit(old(w), client.id, n, r)), client.id, n, r)
    {
      AddToRoom(client, n, r);
      WelcomeMember(client, n, r);
    }

    /** The three checks of a join, in the order of their early returns. */
    method CheckJoin(room: RoomInfo, n: NodeId, password: Option<string>) returns (why: Option<Refusal>)
      ensures why == JoinCheck(room.View(), n, password)
    {
      if room.password.Some? && room.password.value != "" && room.password != password {
        return Some(InvalidPassword);
      }
      if n in room.banned {
        return Some(Banned);
      }
      if |room.members.entries| >= room.maxMembers {
        return Some(RoomFull);
      }
      return None;
    }

    method EnterRoom(client: ClientInfo, n: NodeId, r: RoomId, password: Option<string>)
      requires Valid() && Knows(client) && client.info.open && client.info.nodeId == Some(n) && r in rooms.entries
      modifies `w, `sequence, `log, client, rooms.entries[r]
      ensures Valid() && State() == Enter(old(State()), client.id, n, r, password)
    {
      var why := CheckJoin(rooms.entries[r], n, password);
      if why.Some? {
        SendResponse(client, n, JoinRefused(why.value));
      } else {
        AdmitMember(client, n, r);
      }
    }

    method HandleJoinRoom(client: ClientInfo, r: RoomId, password: Option<string>)
      requires Valid() && Knows(client) && client.info.open
      modifies `w, `rooms, `roomSet, `publicRooms, `sequence, `log, client, roomSet
      ensures Valid() && State() == AfterJoin(old(State()), client.id, r, password)
    {
      if client.info.nodeId.Some? {
        var n := client.info.nodeId.value;
        OpenRoomFor(n, r, password);
        EnterRoom(client, n, r, password);
      }
    }

    method HandleLeaveRoom(client: ClientInfo, r: RoomId)
      requires Valid() && Knows(client) && client.info.open
      modifies `w, `sequence, `log, roomSet, infoSet
      ensures Valid() && State() == AfterLeave(old(State()), client.id, r)
    {
      if client.info.nodeId.Some? && r in client.info.rooms {
        RemoveFromRoom(client.info.nodeId.value, r);
      }
    }

    method HandleBroadcast(client: ClientInfo, r: RoomId, message: string)
      requires Valid() && Knows(client) && client.info.open
      modifies `sequence, `log
      ensures Valid() && State() == AfterSay(old(State()), client.id, r, message)
    {
      if client.info.nodeId.None? || r !in client.info.rooms || r !in rooms.entries {
        return;
      }
      var n := client.info.nodeId.value;
      var members := rooms.entries[r].members.entries;
      if n !in members || !Allows(members[n].role, SEND_MESSAGE) {
        return;
      }
      BroadcastToRoom(r, Chat(n, members[n].username, message), {});
    }

    method HandleDirect(client: ClientInfo, target: NodeId, message: string)
      requires Valid() && Knows(client) && client.info.open
      modifies `sequence, `log
      ensures Valid() && State() == AfterDirect(old(State()), client.id, target, message)
    {
      if client.info.nodeId.Some? && target in clients.entries {
        var packet := DirectMessage(client.info.nodeId.value, client.info.username, message);
        SendResponse(clients.entries[target], target, packet);
      }
    }

    method HandleStateSync(client: ClientInfo, syncType: string, data: string, stamp: int)
      returns (ghost order: seq<RoomId>)
      requires Valid() && Knows(client) && client.info.open
      modifies `sequence, `log
      ensures Valid() && Enumerates(order, client.info.rooms)
      ensures State() == AfterSync(old(State()), client.id, syncType, data, stamp, order)
    {
      var list := ToList(client.info.rooms);
      order := list;
      if client.info.nodeId.None? {
        return;
      }
      var n := client.info.nodeId.value;
      SyncAll(n, list, StateSync(syncType, n, data, stamp));
    }

    /** The loop over the client's set of rooms, which nothing changes while the handler is one step. */
    method SyncAll(n: NodeId, list: seq<RoomId>, packet: Packet)
      requires Valid()
      modifies `sequence, `log
      ensures Valid() && State() == SyncRooms(old(State()), n, list, packet)
    {
      for k := 0 to |list|
        invariant Valid() && State() == SyncRooms(old(State()), n, list[..k], packet)
      {
        var r := list[k];
        if r in rooms.entries && n in rooms.entries[r].members.entries {
          BroadcastToRoom(r, packet, {n});
        }
        assert list[..k + 1][..k] == list[..k];
      }
      assert list[..|list|] == list;
    }

    method HandleRoomList(client: ClientInfo) returns (ghost order: seq<RoomId>)
      requires Valid() && Knows(client) && client.info.open
      modifies `sequence, `log
      ensures Valid() && Enumerates(order, publicRooms)
      ensures State() == AfterListRooms(old(State()), client.id, order)
    {
      var list := ToList(publicRooms);
      order := list;
      if client.info.nodeId.None? {
        return;
      }
      var cards := [];
      for k := 0 to |list|
        invariant cards == Cards(w, list[..k])
      {
        if list[k] in rooms.entries {
          cards := cards + [Card(rooms.entries[list[k]].View())];
        }
        assert list[..k + 1][..k] == list[..k];
      }
      assert list[..|list|] == list;
      SendResponse(client, client.info.nodeId.value, RoomList(cards));
    }

    // -------------------------------------------------------------- background tasks

    /** One round of `_sync_loop`: the rooms in the order they were made. */
    method SyncRound() returns (ghost ls: seq<Label>)
      requires Valid()
      modifies `sequence, `log
      ensures Valid() && State() == Run(old(State()), ls)
      ensures |ls| == |rooms.order| && forall i :: 0 <= i < |ls| ==> ls[i] == Tick(rooms.order[i])
    {
      ls := [];
      for k := 0 to |rooms.order|
        invariant Valid() && State() == Run(old(State()), ls)
        invariant |ls| == k && forall i :: 0 <= i < k ==> ls[i] == Tick(rooms.order[i])
      {
        assert rooms.order[k] in rooms.order;
        SyncRoom(rooms.order[k]);
        assert (ls + [Tick(rooms.order[k])])[..k] == ls;
        ls := ls + [Tick(rooms.order[k])];
      }
    }

    method SyncRoom(r: RoomId)
      requires Valid() && r in rooms.entries
      modifies `sequence, `log
      ensures Valid() && State() == Step(old(State()), Tick(r))
    {
      var count := |rooms.entries[r].members.entries|;
      if count > 0 {
        BroadcastToRoom(r, RoomSync(r, count), {});
      }
    }

    method IsStale(n: NodeId, now: real) returns (stale: bool)
      requires Valid() && n in clients.entries
      ensures stale == Stale(w, n, now)
    {
      stale := now - clients.entries[n].info.connectedAt > HEARTBEAT_TIMEOUT;
    }

    /** One turn of the heartbeat loop, `es` being the evictions before it. */
    method CheckClient(list: seq<NodeId>, k: nat, now: real, ghost s: State, ghost es: seq<Eviction>)
      returns (ghost more: seq<Eviction>)
      requires Valid() && Pending(w, list, k, now) && k < |list|
      requires State() == EvictAll(s, es) && Justified(s, es, now)
      modifies `w, `clients, `sequence, `log, roomSet, infoSet
      ensures Valid() && Pending(w, list, k + 1, now)
      ensures State() == EvictAll(s, more) && Justified(s, more, now)
    {
      more := es;
      var stale := IsStale(list[k], now);
      if stale {
        PendingDropped(w, list, k, now);
        ghost var order := DisconnectClient(list[k]);
        more := OneMoreEvicted(s, es, list[k], order, now);
      } else {
        PendingKept(w, list, k, now);
      }
    }

    /** One round of `_heartbeat_loop`: it evicts only stale clients, and afterwards there are none. */
    method HeartbeatRound(now: real) returns (ghost es: seq<Eviction>)
      requires Valid()
      modifies `w, `clients, `sequence, `log, roomSet, infoSet
      ensures Valid() && State() == EvictAll(old(State()), es) && Justified(old(State()), es, now)
      ensures forall n :: !Stale(w, n, now)
    {
      es := [];
      var list := clients.order;
      PendingFirst(w, now);
      for k := 0 to |list|
        invariant Valid() && Pending(w, list, k, now)
        invariant State() == EvictAll(old(State()), es) && Justified(old(State()), es, now)
      {
        es := CheckClient(list, k, now, old(State()), es);
      }
    }
  }

  datatype Eviction = Eviction(node: NodeId, order: seq<RoomId>)

  function EvictAll(s: State, es: seq<Eviction>): State {
    if es == [] then s
    else Disconnect(EvictAll(s, es[..|es| - 1]), es[|es| - 1].node, es[|es| - 1].order)
  }

  /** Every eviction hits a client that is too old at that moment. */
  ghost predicate Justified(s: State, es: seq<Eviction>, now: real) {
    es == [] ||
    var e, w := es[|es| - 1], EvictAll(s, es[..|es| - 1]).w;
    Justified(s, es[..|es| - 1], now) && Stale(w, e.node, now) && Enumerates(e.order, RoomsOf(w, e.node))
  }

  lemma OneMoreEvicted(s: State, es: seq<Eviction>, n: NodeId, order: seq<RoomId>, now: real)
    returns (more: seq<Eviction>)
    requires Justified(s, es, now)
    requires Stale(EvictAll(s, es).w, n, now) && Enumerates(order, RoomsOf(EvictAll(s, es).w, n))
    ensures Justified(s, more, now) && EvictAll(s, more) == Disconnect(EvictAll(s, es), n, order)
  {
    more := es + [Eviction(n, order)];
    assert more[..|es|] == es;
  }

  function Labels(es: seq<Eviction>): seq<Label> {
    if es == [] then [] else Labels(es[..|es| - 1]) + [Evict(es[|es| - 1].node, es[|es| - 1].order)]
  }

  /** A round of the heartbeat is a possible run of the server. */
  lemma {:induction false} HeartbeatIsRun(s: State, es: seq<Eviction>, now: real)
    requires Justified(s, es, now)
    ensures PossibleRun(s, Labels(es)) && Run(s, Labels(es)) == EvictAll(s, es)
  {
    if es != [] {
      var init, last := es[..|es| - 1], es[|es| - 1];
      HeartbeatIsRun(s, init, now);
      RunSnoc(s, Labels(init), Evict(last.node, last.order));
    }
  }

  /** The copied list from place `k` on: all still registered, and every stale client is among them. */
  ghost predicate Pending(w: World, list: seq<NodeId>, k: nat, now: real) {
    && k <= |list| && Distinct(list)
    && (forall i :: k <= i < |list| ==> list[i] in w.clients.entries)
    && (forall n :: Stale(w, n, now) ==> n in list[k..])
  }

  lemma PendingFirst(w: World, now: real)
    ensures Pending(w, w.clients.order, 0, now)
  {
    var list := w.clients.order;
    assert forall i :: 0 <= i < |list| ==> list[i] in list;
    assert forall n :: n in w.clients.entries ==> n in list;
    assert list[0..] == list;
  }

  lemma PendingKept(w: World, list: seq<NodeId>, k: nat, now: real)
    requires Pending(w, list, k, now) && k < |list| && !Stale(w, list[k], now)
    ensures Pending(w, list, k + 1, now)
  {
    assert list[k..] == [list[k]] + list[k + 1..];
  }

  lemma PendingDropped(w: World, list: seq<NodeId>, k: nat, now: real)
    requires Pending(w, list, k, now) && k < |list|
    ensures forall order :: Pending(Dropped(w, list[k], order), list, k + 1, now)
  {
    forall order ensures Pending(Dropped(w, list[k], order), list, k + 1, now) {
      DroppedTimes(w, list[k], order);
      assert list[k..] == [list[k]] + list[k + 1..];
      assert forall i :: k < i < |list| ==> list[i] != list[k];
    }
  }

  /** A disconnect makes nobody else older or younger. */
  lemma DroppedTimes(w: World, n: NodeId, order: seq<RoomId>)
    requires n in w.clients.entries
    ensures var v := Dropped(w, n, order);
            && v.clients == Del(w.clients, n)
            && forall m, now :: Stale(v, m, now) <==> m != n && Stale(w, m, now)
  {
    ExpelAllAges(w, n, order);
  }

  method ToList(s: set<RoomId>) returns (list: seq<RoomId>)
    ensures Enumerates(list, s)
  {
    list := [];
    var rest := s;
    while rest != {}
      invariant rest <= s && Enumerates(list, s - rest)
      decreases |rest|
    {
      var r :| r in rest;
      list := list + [r];
      rest := rest - {r};
    }
  }

  lemma {:induction false} DeliverFrame(s: State, v: World, to: seq<Target>, packet: Packet)
    ensures Deliver(s.(w := v), to, packet) == Deliver(s, to, packet).(w := v)
  {
    if to != [] {
      DeliverFrame(s, v, to[..|to| - 1], packet);
    }
  }

  /** Who is told depends on the rooms and the clients only. */
  lemma BroadcastFrame(s: State, v: World, u: World, r: RoomId, packet: Packet, exclude: set<NodeId>)
    requires v.rooms == u.rooms && v.clients == u.clients
    ensures Broadcast(s.(w := v), r, packet, exclude).(w := u) == Broadcast(s.(w := u), r, packet, exclude)
  {
    if r in v.rooms.entries {
      var room := v.rooms.entries[r];
      var to := Targets(v.clients.entries, room, |room.members.order|, exclude);
      DeliverFrame(s, v, to, packet);
      DeliverFrame(s, u, to, packet);
    }
  }

  /** The code tells the others before it updates the client's own set. */
  lemma RemoveInOrder(s: State, n: NodeId, r: RoomId)
    ensures Remove(s, n, r) ==
            if InRoom(s.w, n, r) then
              var v := TakeOut(s.w, n, r);
              var username := s.w.rooms.entries[r].members.entries[n].username;
              Broadcast(s.(w := v), r, MemberLeft(n, username), {}).(w := Discard(v, n, r))
            else s.(w := Discard(s.w, n, r))
  {
    if InRoom(s.w, n, r) {
      var username := s.w.rooms.entries[r].members.entries[n].username;
      BroadcastFrame(s, TakeOut(s.w, n, r), Expel(s.w, n, r), r, MemberLeft(n, username), {});
    }
  }

  lemma DeliverSnoc(s: State, to: seq<Target>, last: Target, packet: Packet)
    ensures Deliver(s, to + [last], packet) == Deliver(Deliver(s, to, packet), [last], packet)
  {
    assert (to + [last])[..|to|] == to;
    assert Deliver(Deliver(s, to, packet), [], packet) == Deliver(s, to, packet);
  }
}
