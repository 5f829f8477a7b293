/**
 * The FastLink room server as a state machine: its tables, one transition per handler and the log of
 * the responses it issues. A broadcast or response counts as issued when it takes its sequence number,
 * whatever the socket then does with it.
 */
module RoomState {
  import opened Bytes
  import opened PyDict

  type NodeId = string
  type RoomId = string

  /** Names one `client_info` record, that is, one accepted connection. */
  type ConnId = nat

  datatype Visibility = PUBLIC | PRIVATE | HIDDEN

  datatype Role = VISITOR | MEMBER | MODERATOR | ADMIN | OWNER

  datatype Permission =
    SEND_MESSAGE | SEND_MEDIA | EDIT_ROOM | KICK_MEMBER | BAN_MEMBER | ASSIGN_ROLE | DELETE_MESSAGE | PIN_MESSAGE

  predicate Allows(role: Role, permission: Permission) {
    match role
    case OWNER => true
    case ADMIN => true
    case MODERATOR => permission in {SEND_MESSAGE, SEND_MEDIA, KICK_MEMBER, DELETE_MESSAGE}
    case MEMBER => permission in {SEND_MESSAGE, SEND_MEDIA}
    case VISITOR => false
  }

  // ---------------------------------------------------------------- tables

  datatype Member = Member(nodeId: NodeId, username: string, role: Role, platform: string)

  datatype Room = Room(
    roomId: RoomId, visibility: Visibility, password: Option<string>, maxMembers: int, ownerId: NodeId,
    members: Dict<NodeId, Member>, banned: set<NodeId>)
  {
    predicate IsFull() {
      |members.entries| >= maxMembers
    }
  }

  datatype Session = Session(
    nodeId: Option<NodeId>, username: string, platform: string, rooms: set<RoomId>, connectedAt: real, open: bool)

  datatype World = World(
    serverId: NodeId, rooms: Dict<RoomId, Room>, publicRooms: set<RoomId>,
    clients: Dict<NodeId, ConnId>, sessions: map<ConnId, Session>)

  predicate InRoom(w: World, n: NodeId, r: RoomId) {
    r in w.rooms.entries && n in w.rooms.entries[r].members.entries
  }

  /** `clients[n]['rooms']`, empty for an unregistered node. */
  function RoomsOf(w: World, n: NodeId): set<RoomId> {
    if n in w.clients.entries && w.clients.entries[n] in w.sessions then w.sessions[w.clients.entries[n]].rooms else {}
  }

  /** The node an open, authenticated connection speaks for; it need not be registered any more. */
  function Sender(w: World, c: ConnId): Option<NodeId> {
    if c in w.sessions && w.sessions[c].open then w.sessions[c].nodeId else None
  }

  predicate Registered(w: World, c: ConnId) {
    && c in w.sessions && w.sessions[c].nodeId.Some?
    && w.sessions[c].nodeId.value in w.clients.entries && w.clients.entries[w.sessions[c].nodeId.value] == c
  }

  // ---------------------------------------------------------------- responses

  datatype Refusal = InvalidPassword | Banned | RoomFull

  datatype RoomCard = RoomCard(
    roomId: RoomId, visibility: Visibility, maxMembers: int, ownerId: NodeId, memberCount: nat)

  datatype Packet =
    | AuthOk(nodeId: NodeId)
    | JoinRefused(why: Refusal)
    | JoinOk(card: RoomCard, members: seq<NodeId>)
    | MemberJoined(nodeId: NodeId, username: string)
    | MemberLeft(nodeId: NodeId, username: string)
    | Chat(senderId: NodeId, senderName: string, message: string)
    | DirectMessage(senderId: NodeId, senderName: string, message: string)
    | StateSync(syncType: string, senderId: NodeId, data: string, stamp: int)
    | RoomList(rooms: seq<RoomCard>)
    | RoomSync(roomId: RoomId, memberCount: nat)

  datatype Sent = Sent(sequence: nat, node: NodeId, conn: ConnId, packet: Packet)

  datatype State = State(w: World, sequence: nat, log: seq<Sent>)

  type Target = (NodeId, ConnId)

  /** `_send_response` to each target in turn, every one under the next sequence number. */
  function Deliver(s: State, to: seq<Target>, packet: Packet): (t: State)
    ensures t.w == s.w
  {
    if to == [] then s
    else
      var t := Deliver(s, to[..|to| - 1], packet);
      var last := to[|to| - 1];
      State(t.w, t.sequence + 1, t.log + [Sent(t.sequence + 1, last.0, last.1, packet)])
  }

  /** The registered clients among the first `k` members of a room, in joining order, without the excluded. */
  function Targets(clients: map<NodeId, ConnId>, room: Room, k: nat, exclude: set<NodeId>): seq<Target>
    requires k <= |room.members.order|
  {
    if k == 0 then []
    else
      assert room.members.order[k - 1] in room.members.order;
      var n := room.members.entries[room.members.order[k - 1]].nodeId;
      var before := Targets(clients, room, k - 1, exclude);
      if n !in exclude && n in clients then before + [(n, clients[n])] else before
  }

  /** `_broadcast_to_room`. */
  function Broadcast(s: State, r: RoomId, packet: Packet, exclude: set<NodeId>): (t: State)
    ensures t.w == s.w
  {
    if r !in s.w.rooms.entries then s
    else
      var room := s.w.rooms.entries[r];
      Deliver(s, Targets(s.w.clients.entries, room, |room.members.order|, exclude), packet)
  }

  function Card(room: Room): RoomCard {
    RoomCard(room.roomId, room.visibility, room.maxMembers, room.ownerId, |room.members.entries|)
  }

  // ---------------------------------------------------------------- what the handlers do to the tables

  function Accepted(w: World, c: ConnId, now: real): World {
    w.(sessions := w.sessions[c := Session(None, "Unknown", "java", {}, now, true)])
  }

  /** `_handle_auth` with the node id it generates; nothing asks whether the connection has one already. */
  function Authenticated(w: World, c: ConnId, n: NodeId, username: string, platform: string): World {
    if c in w.sessions && w.sessions[c].open then
      var session := w.sessions[c].(nodeId := Some(n), username := username, platform := platform);
      w.(clients := Put(w.clients, n, c), sessions := w.sessions[c := session])
    else w
  }

  /** The room a join finds or makes. */
  function OpenRoom(w: World, n: NodeId, r: RoomId, password: Option<string>): (v: World)
    ensures r in v.rooms.entries
  {
    if r in w.rooms.entries then w
    else
      var room := Room(r, PUBLIC, password, 100, n, Empty(), {});
      w.(rooms := Put(w.rooms, r, room), publicRooms := w.publicRooms + {r})
  }

  /** The checks of a join in order; an absent or empty room password lets everyone in. */
  function JoinCheck(room: Room, n: NodeId, password: Option<string>): Option<Refusal> {
    if room.password.Some? && room.password.value != "" && room.password != password then Some(InvalidPassword)
    else if n in room.banned then Some(Banned)
    else if room.IsFull() then Some(RoomFull)
    else None
  }

  predicate Admitted(w: World, c: ConnId, r: RoomId, password: Option<string>) {
    && Sender(w, c).Some?
    && JoinCheck(OpenRoom(w, Sender(w, c).value, r, password).rooms.entries[r], Sender(w, c).value, password).None?
  }

  function Admit(w: World, c: ConnId, n: NodeId, r: RoomId): World
    requires c in w.sessions && r in w.rooms.entries
  {
    var room, session := w.rooms.entries[r], w.sessions[c];
    var member := Member(n, session.username, if room.ownerId == n then OWNER else MEMBER, session.platform);
    w.(rooms := Put(w.rooms, r, room.(members := Put(room.members, n, member))),
       sessions := w.sessions[c := session.(rooms := session.rooms + {r})])
  }

  /** The room a join opens stays open even when the join is then refused. */
  function Joined(w: World, c: ConnId, r: RoomId, password: Option<string>): World {
    if Sender(w, c).None? then w
    else
      var n := Sender(w, c).value;
      var v := OpenRoom(w, n, r, password);
      if Admitted(w, c, r, password) then Admit(v, c, n, r) else v
  }

  /** `_remove_from_room`: out of the room's members and out of the client's rooms. */
  function Expel(w: World, n: NodeId, r: RoomId): World {
    Discard(if InRoom(w, n, r) then TakeOut(w, n, r) else w, n, r)
  }

  function TakeOut(w: World, n: NodeId, r: RoomId): World
    requires r in w.rooms.entries
  {
    w.(rooms := Put(w.rooms, r, w.rooms.entries[r].(members := Del(w.rooms.entries[r].members, n))))
  }

  function Discard(w: World, n: NodeId, r: RoomId): World {
    if n in w.clients.entries && w.clients.entries[n] in w.sessions then
      var c := w.clients.entries[n];
      w.(sessions := w.sessions[c := w.sessions[c].(rooms := w.sessions[c].rooms - {r})])
    else w
  }

  function Left(w: World, c: ConnId, r: RoomId): World {
    if Sender(w, c).Some? && r in w.sessions[c].rooms then Expel(w, Sender(w, c).value, r) else w
  }

  function ExpelAll(w: World, n: NodeId, rooms: seq<RoomId>): World {
    if rooms == [] then w else Expel(ExpelAll(w, n, rooms[..|rooms| - 1]), n, rooms[|rooms| - 1])
  }

  /** `_disconnect_client`, given the order in which the client's set of rooms is walked. */
  function Dropped(w: World, n: NodeId, order: seq<RoomId>): World {
    if n in w.clients.entries then
      var v := ExpelAll(w, n, order);
      v.(clients := Del(v.clients, n))
    else w
  }

  /** The end of `_handle_client`. */
  function Closed(w: World, c: ConnId, order: seq<RoomId>): World {
    if c !in w.sessions || !w.sessions[c].open then w
    else
      var v := if w.sessions[c].nodeId.Some? then Dropped(w, w.sessions[c].nodeId.value, order) else w;
      if c in v.sessions then v.(sessions := v.sessions[c := v.sessions[c].(open := false)]) else v
  }

  function Created(w: World, r: RoomId, visibility: Visibility, password: Option<string>, maxMembers: int): World {
    w.(rooms := Put(w.rooms, r, Room(r, visibility, password, maxMembers, w.serverId, Empty(), {})),
       publicRooms := if visibility == PUBLIC then w.publicRooms + {r} else w.publicRooms)
  }

  /** `RoomInfo.ban_member`, which leaves the client's own set of rooms alone. */
  function Outlawed(w: World, r: RoomId, n: NodeId): World {
    if r in w.rooms.entries then
      var room := w.rooms.entries[r];
      w.(rooms := Put(w.rooms, r, room.(members := Del(room.members, n), banned := room.banned + {n})))
    else w
  }

  // ---------------------------------------------------------------- the handlers with their responses

  function AfterAuth(s: State, c: ConnId, n: NodeId, username: string, platform: string): (t: State)
    ensures t.w == Authenticated(s.w, c, n, username, platform)
  {
    if c in s.w.sessions && s.w.sessions[c].open then
      Deliver(s.(w := Authenticated(s.w, c, n, username, platform)), [(n, c)], AuthOk(n))
    else s
  }

  /** The part of a join that follows once the room is there. */
  function Enter(s: State, c: ConnId, n: NodeId, r: RoomId, password: Option<string>): (t: State)
    requires c in s.w.sessions && r in s.w.rooms.entries
    ensures t.w == if JoinCheck(s.w.rooms.entries[r], n, password).None? then Admit(s.w, c, n, r) else s.w
  {
    match JoinCheck(s.w.rooms.entries[r], n, password)
    case Some(why) => Deliver(s, [(n, c)], JoinRefused(why))
    case None => Welcome(s.(w := Admit(s.w, c, n, r)), c, n, r)
  }

  /** The others hear of the new member first, then the new member of the room. */
  function Welcome(s: State, c: ConnId, n: NodeId, r: RoomId): (t: State)
    requires c in s.w.sessions && r in s.w.rooms.entries
    ensures t.w == s.w
  {
    var room := s.w.rooms.entries[r];
    Deliver(Broadcast(s, r, MemberJoined(n, s.w.sessions[c].username), {n}), [(n, c)],
            JoinOk(Card(room), room.members.order))
  }

  function AfterJoin(s: State, c: ConnId, r: RoomId, password: Option<string>): (t: State)
    ensures t.w == Joined(s.w, c, r, password)
  {
    if Sender(s.w, c).None? then s
    else
      var n := Sender(s.w, c).value;
      Enter(s.(w := OpenRoom(s.w, n, r, password)), c, n, r, password)
  }

  function Remove(s: State, n: NodeId, r: RoomId): (t: State)
    ensures t.w == Expel(s.w, n, r)
  {
    var t := s.(w := Expel(s.w, n, r));
    if InRoom(s.w, n, r) then
      Broadcast(t, r, MemberLeft(n, s.w.rooms.entries[r].members.entries[n].username), {})
    else t
  }

  function RemoveAll(s: State, n: NodeId, rooms: seq<RoomId>): (t: State)
    ensures t.w == ExpelAll(s.w, n, rooms)
  {
    if rooms == [] then s else Remove(RemoveAll(s, n, rooms[..|rooms| - 1]), n, rooms[|rooms| - 1])
  }

  function AfterLeave(s: State, c: ConnId, r: RoomId): (t: State)
    ensures t.w == Left(s.w, c, r)
  {
    if Sender(s.w, c).Some? && r in s.w.sessions[c].rooms then Remove(s, Sender(s.w, c).value, r) else s
  }

  function Disconnect(s: State, n: NodeId, order: seq<RoomId>): (t: State)
    ensures t.w == Dropped(s.w, n, order)
  {
    if n in s.w.clients.entries then RemoveAll(s, n, order).(w := Dropped(s.w, n, order)) else s
  }

  function AfterClose(s: State, c: ConnId, order: seq<RoomId>): (t: State)
    ensures t.w == Closed(s.w, c, order)
  {
    if c in s.w.sessions && s.w.sessions[c].open && s.w.sessions[c].nodeId.Some? then
      Disconnect(s, s.w.sessions[c].nodeId.value, order).(w := Closed(s.w, c, order))
    else
      s.(w := Closed(s.w, c, order))
  }

  /** A member of the room who may send messages, through a connection that has the room in its set. */
  predicate MaySpeak(w: World, c: ConnId, n: NodeId, r: RoomId) {
    && Sender(w, c) == Some(n) && r in w.sessions[c].rooms
    && InRoom(w, n, r) && Allows(w.rooms.entries[r].members.entries[n].role, SEND_MESSAGE)
  }

  function AfterSay(s: State, c: ConnId, r: RoomId, message: string): (t: State)
    ensures t.w == s.w
  {
    if Sender(s.w, c).Some? && MaySpeak(s.w, c, Sender(s.w, c).value, r) then
      var n := Sender(s.w, c).value;
      Broadcast(s, r, Chat(n, s.w.rooms.entries[r].members.entries[n].username, message), {})
    else s
  }

  function AfterDirect(s: State, c: ConnId, target: NodeId, message: string): (t: State)
    ensures t.w == s.w
  {
    if Sender(s.w, c).Some? && target in s.w.clients.entries then
      Deliver(s, [(target, s.w.clients.entries[target])],
              DirectMessage(Sender(s.w, c).value, s.w.sessions[c].username, message))
    else s
  }

  function SyncRooms(s: State, n: NodeId, rooms: seq<RoomId>, packet: Packet): (t: State)
    ensures t.w == s.w
  {
    if rooms == [] then s
    else
      var t := SyncRooms(s, n, rooms[..|rooms| - 1], packet);
      var r := rooms[|rooms| - 1];
      if InRoom(s.w, n, r) then Broadcast(t, r, packet, {n}) else t
  }

  function AfterSync(s: State, c: ConnId, syncType: string, data: string, stamp: int, order: seq<RoomId>): (t: State)
    ensures t.w == s.w
  {
    if Sender(s.w, c).Some? then
      SyncRooms(s, Sender(s.w, c).value, order, StateSync(syncType, Sender(s.w, c).value, data, stamp))
    else s
  }

  function Cards(w: World, rooms: seq<RoomId>): seq<RoomCard> {
    if rooms == [] then []
    else
      var r := rooms[|rooms| - 1];
      Cards(w, rooms[..|rooms| - 1]) + (if r in w.rooms.entries then [Card(w.rooms.entries[r])] else [])
  }

  function AfterListRooms(s: State, c: ConnId, order: seq<RoomId>): (t: State)
    ensures t.w == s.w
  {
    if Sender(s.w, c).Some? then Deliver(s, [(Sender(s.w, c).value, c)], RoomList(Cards(s.w, order))) else s
  }

  /** One room of `_sync_loop`. */
  function AfterTick(s: State, r: RoomId): (t: State)
    ensures t.w == s.w
  {
    if r in s.w.rooms.entries && |s.w.rooms.entries[r].members.entries| > 0 then
      Broadcast(s, r, RoomSync(r, |s.w.rooms.entries[r].members.entries|), {})
    else s
  }

  // ---------------------------------------------------------------- runs

  /** A decoded packet of a type the server has a handler for; Auth carries the id the handler generates. */
  datatype Request =
    | Auth(node: NodeId, username: string, platform: string)
    | Join(room: RoomId, password: Option<string>)
    | Leave(room: RoomId)
    | Say(room: RoomId, message: string)
    | Direct(target: NodeId, message: string)
    | Sync(syncType: string, data: string, stamp: int, order: seq<RoomId>)
    | ListRooms(order: seq<RoomId>)

  /** What can happen; Evict is a heartbeat time-out or a server stopping. */
  datatype Label =
    | Receive(conn: ConnId, request: Request)
    | Accept(conn: ConnId, now: real)
    | Close(conn: ConnId, order: seq<RoomId>)
    | Evict(node: NodeId, order: seq<RoomId>)
    | Tick(room: RoomId)
    | CreateRoom(room: RoomId, visibility: Visibility, password: Option<string>, maxMembers: int)
    | Ban(room: RoomId, node: NodeId)

  /** The tables after a request or a step; the responses change none of them. */
  function Handled(w: World, c: ConnId, q: Request): World {
    match q
    case Auth(n, username, platform) => Authenticated(w, c, n, username, platform)
    case Join(r, password) => Joined(w, c, r, password)
    case Leave(r) => Left(w, c, r)
    case _ => w
  }

  function Next(w: World, l: Label): World {
    match l
    case Receive(c, q) => Handled(w, c, q)
    case Accept(c, now) => Accepted(w, c, now)
    case Close(c, order) => Closed(w, c, order)
    case Evict(n, order) => Dropped(w, n, order)
    case Tick(_) => w
    case CreateRoom(r, visibility, password, maxMembers) => Created(w, r, visibility, password, maxMembers)
    case Ban(r, n) => Outlawed(w, r, n)
  }

  /** `_handle_server_packet`. */
  function Handle(s: State, c: ConnId, q: Request): (t: State)
    ensures t.w == Handled(s.w, c, q)
  {
    match q
    case Auth(n, username, platform) => AfterAuth(s, c, n, username, platform)
    case Join(r, password) => AfterJoin(s, c, r, password)
    case Leave(r) => AfterLeave(s, c, r)
    case Say(r, message) => AfterSay(s, c, r, message)
    case Direct(target, message) => AfterDirect(s, c, target, message)
    case Sync(syncType, data, stamp, order) => AfterSync(s, c, syncType, data, stamp, order)
    case ListRooms(order) => AfterListRooms(s, c, order)
  }

  function Step(s: State, l: Label): (t: State)
    ensures t.w == Next(s.w, l)
  {
    match l
    case Receive(c, q) => Handle(s, c, q)
    case Accept(c, now) => s.(w := Accepted(s.w, c, now))
    case Close(c, order) => AfterClose(s, c, order)
    case Evict(n, order) => Disconnect(s, n, order)
    case Tick(r) => AfterTick(s, r)
    case CreateRoom(r, visibility, password, maxMembers) =>
      s.(w := Created(s.w, r, visibility, password, maxMembers))
    case Ban(r, n) => s.(w := Outlawed(s.w, r, n))
  }

  const HEARTBEAT_TIMEOUT: real := 30.0

  /** No code path sets `last_heartbeat`, so age is counted from the moment the connection was accepted. */
  predicate Stale(w: World, n: NodeId, now: real) {
    && n in w.clients.entries && w.clients.entries[n] in w.sessions
    && now - w.sessions[w.clients.entries[n]].connectedAt > HEARTBEAT_TIMEOUT
  }

  ghost predicate Enumerates(order: seq<RoomId>, rooms: set<RoomId>) {
    Distinct(order) && forall r :: r in order <==> r in rooms
  }

  /** What the environment guarantees: new connections and generated ids are new, and sets are walked once through. */
  ghost predicate Possible(w: World, l: Label) {
    match l
    case Receive(c, Auth(n, _, _)) => n !in w.clients.entries
    case Receive(c, Sync(_, _, _, order)) => c in w.sessions && Enumerates(order, w.sessions[c].rooms)
    case Receive(c, ListRooms(order)) => Enumerates(order, w.publicRooms)
    case Receive(c, _) => true
    case Accept(c, _) => c !in w.sessions
    case Close(c, order) =>
      c in w.sessions && (w.sessions[c].nodeId.Some? ==> Enumerates(order, RoomsOf(w, w.sessions[c].nodeId.value)))
    case Evict(n, order) => Enumerates(order, RoomsOf(w, n))
    case Tick(_) => true
    case CreateRoom(r, _, _, _) => r !in w.rooms.entries
    case Ban(_, _) => true
  }

  function Initial(serverId: NodeId): State {
    State(World(serverId, Empty(), {}, Empty(), map[]), 0, [])
  }

  function Run(s: State, ls: seq<Label>): State {
    if ls == [] then s else Step(Run(s, ls[..|ls| - 1]), ls[|ls| - 1])
  }

  ghost predicate PossibleRun(s: State, ls: seq<Label>) {
    ls == [] || (PossibleRun(s, ls[..|ls| - 1]) && Possible(Run(s, ls[..|ls| - 1]).w, ls[|ls| - 1]))
  }

  lemma RunSnoc(s: State, ls: seq<Label>, l: Label)
    ensures Run(s, ls + [l]) == Step(Run(s, ls), l)
    ensures PossibleRun(s, ls + [l]) <==> PossibleRun(s, ls) && Possible(Run(s, ls).w, l)
  {
    assert (ls + [l])[..|ls|] == ls;
  }
}
