/** What every step of the room server keeps about its rooms. */
module RoomInvariants {
  import opened Bytes
  import opened PyDict
  import opened RoomState

  // ---------------------------------------------------------------- rooms, on every run

  ghost predicate RoomOk(r: RoomId, room: Room) {
    && room.roomId == r
    && (room.members.entries == map[] || |room.members.entries| <= room.maxMembers)
    && forall n :: n in room.members.entries ==>
         var m := room.members.entries[n];
         m.nodeId == n && n !in room.banned && m.role == if n == room.ownerId then OWNER else MEMBER
  }

  /**
   * Keys match, no room is over its limit, nobody banned is inside, the owner is OWNER and everyone else
   * MEMBER, and the public index is exact.
   */
  ghost predicate RoomsOk(w: World) {
    && (forall r :: r in w.rooms.entries ==> RoomOk(r, w.rooms.entries[r]))
    && (forall r :: r in w.publicRooms <==> r in w.rooms.entries && w.rooms.entries[r].visibility == PUBLIC)
  }

  lemma DelKeepsRoom(r: RoomId, room: Room, n: NodeId)
    requires RoomOk(r, room)
    ensures RoomOk(r, room.(members := Del(room.members, n)))
    ensures RoomOk(r, room.(members := Del(room.members, n), banned := room.banned + {n}))
  {
    var members := Del(room.members, n).entries;
    assert members.Keys == room.members.entries.Keys - {n};
    assert |members| == |members.Keys| <= |room.members.entries.Keys| == |room.members.entries|;
  }

  lemma PutKeepsRoom(r: RoomId, room: Room, m: Member)
    requires RoomOk(r, room) && !room.IsFull() && m.nodeId !in room.banned
    requires m.role == if m.nodeId == room.ownerId then OWNER else MEMBER
    ensures RoomOk(r, room.(members := Put(room.members, m.nodeId, m)))
  {
    var members := Put(room.members, m.nodeId, m).entries;
    assert members.Keys == room.members.entries.Keys + {m.nodeId};
    assert |members| == |members.Keys| && |room.members.entries.Keys| == |room.members.entries|;
  }

  /** Changing one room for a sound one of the same visibility keeps the rest. */
  lemma RoomChanged(w: World, v: World, r: RoomId, room: Room)
    requires RoomsOk(w) && r in w.rooms.entries && room.visibility == w.rooms.entries[r].visibility && RoomOk(r, room)
    requires v.rooms.entries == w.rooms.entries[r := room] && v.publicRooms == w.publicRooms
    ensures RoomsOk(v)
  {
  }

  lemma RoomsSame(w: World, v: World)
    requires RoomsOk(w) && v.rooms == w.rooms && v.publicRooms == w.publicRooms
    ensures RoomsOk(v)
  {
  }

  lemma ExpelKeepsRooms(w: World, n: NodeId, r: RoomId)
    requires RoomsOk(w)
    ensures RoomsOk(Expel(w, n, r))
  {
    if InRoom(w, n, r) {
      var room := w.rooms.entries[r];
      DelKeepsRoom(r, room, n);
      RoomChanged(w, Expel(w, n, r), r, room.(members := Del(room.members, n)));
    } else {
      RoomsSame(w, Expel(w, n, r));
    }
  }

  lemma {:induction false} ExpelAllKeepsRooms(w: World, n: NodeId, rooms: seq<RoomId>)
    requires RoomsOk(w)
    ensures RoomsOk(ExpelAll(w, n, rooms))
  {
    if rooms != [] {
      ExpelAllKeepsRooms(w, n, rooms[..|rooms| - 1]);
      ExpelKeepsRooms(ExpelAll(w, n, rooms[..|rooms| - 1]), n, rooms[|rooms| - 1]);
    }
  }

  lemma OpenKeepsRooms(w: World, n: NodeId, r: RoomId, password: Option<string>)
    requires RoomsOk(w)
    ensures RoomsOk(OpenRoom(w, n, r, password))
  {
  }

  lemma AdmitKeepsRooms(w: World, c: ConnId, n: NodeId, r: RoomId)
    requires RoomsOk(w) && c in w.sessions && r in w.rooms.entries
    requires n !in w.rooms.entries[r].banned && !w.rooms.entries[r].IsFull()
    ensures RoomsOk(Admit(w, c, n, r))
  {
    var room := w.rooms.entries[r];
    var m := Member(n, w.sessions[c].username, if room.ownerId == n then OWNER else MEMBER, w.sessions[c].platform);
    PutKeepsRoom(r, room, m);
    RoomChanged(w, Admit(w, c, n, r), r, room.(members := Put(room.members, n, m)));
  }

  lemma JoinKeepsRooms(w: World, c: ConnId, r: RoomId, password: Option<string>)
    requires RoomsOk(w)
    ensures RoomsOk(Joined(w, c, r, password))
  {
    if Sender(w, c).Some? {
      var n := Sender(w, c).value;
      var v := OpenRoom(w, n, r, password);
      OpenKeepsRooms(w, n, r, password);
      if JoinCheck(v.rooms.entries[r], n, password).None? {
        AdmitKeepsRooms(v, c, n, r);
      }
    }
  }

  lemma BanKeepsRooms(w: World, r: RoomId, n: NodeId)
    requires RoomsOk(w)
    ensures RoomsOk(Outlawed(w, r, n))
  {
    if r in w.rooms.entries {
      var room := w.rooms.entries[r];
      DelKeepsRoom(r, room, n);
      RoomChanged(w, Outlawed(w, r, n), r,
                  room.(members := Del(room.members, n), banned := room.banned + {n}));
    }
  }

  lemma DropKeepsRooms(w: World, n: NodeId, order: seq<RoomId>)
    requires RoomsOk(w)
    ensures RoomsOk(Dropped(w, n, order))
  {
    if n in w.clients.entries {
      ExpelAllKeepsRooms(w, n, order);
      RoomsSame(ExpelAll(w, n, order), Dropped(w, n, order));
    }
  }

  /** Every step keeps every room sound, also the steps that let the two copies of membership part. */
  lemma StepKeepsRooms(w: World, l: Label)
    requires RoomsOk(w) && Possible(w, l)
    ensures RoomsOk(Next(w, l))
  {
    match l
    case Receive(c, Auth(n, username, platform)) => RoomsSame(w, Next(w, l));
    case Receive(c, Join(r, password)) => JoinKeepsRooms(w, c, r, password);
    case Receive(c, Leave(r)) =>
      if Sender(w, c).Some? {
        ExpelKeepsRooms(w, Sender(w, c).value, r);
      }
    case Receive(c, _) =>
    case Accept(c, now) => RoomsSame(w, Next(w, l));
    case Close(c, order) =>
      if c in w.sessions && w.sessions[c].open {
        var v := if w.sessions[c].nodeId.Some? then Dropped(w, w.sessions[c].nodeId.value, order) else w;
        if w.sessions[c].nodeId.Some? {
          DropKeepsRooms(w, w.sessions[c].nodeId.value, order);
        }
        RoomsSame(v, Next(w, l));
      }
    case Evict(n, order) => DropKeepsRooms(w, n, order);
    case Tick(_) =>
    case CreateRoom(r, visibility, password, maxMembers) => CreateKeepsRooms(w, r, visibility, password, maxMembers);
    case Ban(r, n) => BanKeepsRooms(w, r, n);
  }

  lemma CreateKeepsRooms(w: World, r: RoomId, visibility: Visibility, password: Option<string>, maxMembers: int)
    requires RoomsOk(w) && r !in w.rooms.entries
    ensures RoomsOk(Created(w, r, visibility, password, maxMembers))
  {
  }

  lemma {:induction false} RoomsOverRuns(serverId: NodeId, ls: seq<Label>)
    requires PossibleRun(Initial(serverId), ls)
    ensures RoomsOk(Run(Initial(serverId), ls).w)
  {
    if ls != [] {
      RoomsOverRuns(serverId, ls[..|ls| - 1]);
      StepKeepsRooms(Run(Initial(serverId), ls[..|ls| - 1]).w, ls[|ls| - 1]);
    }
  }

  // ---------------------------------------------------------------- how old a client is

  /** The same connections with the moments they were accepted at. */
  ghost predicate SameAges(w: World, v: World) {
    && v.sessions.Keys == w.sessions.Keys
    && forall c :: c in w.sessions ==> v.sessions[c].connectedAt == w.sessions[c].connectedAt
  }

  lemma {:induction false} ExpelAllAges(w: World, n: NodeId, rooms: seq<RoomId>)
    ensures SameAges(w, ExpelAll(w, n, rooms)) && ExpelAll(w, n, rooms).clients == w.clients
  {
    if rooms != [] {
      ExpelAllAges(w, n, rooms[..|rooms| - 1]);
    }
  }

  lemma CloseAges(w: World, c: ConnId, order: seq<RoomId>)
    ensures SameAges(w, Closed(w, c, order))
  {
    if c in w.sessions && w.sessions[c].nodeId.Some? {
      ExpelAllAges(w, w.sessions[c].nodeId.value, order);
    }
  }

  /** No step but the accepting of a connection says when a connection was accepted. */
  lemma StepAges(w: World, l: Label)
    requires Possible(w, l) && !l.Accept?
    ensures SameAges(w, Next(w, l))
  {
    match l
    case Receive(c, Auth(_, _, _)) =>
    case Receive(c, Join(r, password)) =>
    case Receive(c, Leave(r)) =>
    case Receive(c, _) =>
    case Close(c, order) => CloseAges(w, c, order);
    case Evict(n, order) => ExpelAllAges(w, n, order);
    case _ =>
  }

  ghost predicate ConnectionsKnown(w: World) {
    forall n :: n in w.clients.entries ==> w.clients.entries[n] in w.sessions
  }

  lemma StepKnown(w: World, l: Label)
    requires ConnectionsKnown(w) && Possible(w, l)
    ensures ConnectionsKnown(Next(w, l))
  {
    if !l.Accept? {
      StepAges(w, l);
    }
    match l
    case Close(c, order) =>
      if w.sessions[c].nodeId.Some? {
        ExpelAllAges(w, w.sessions[c].nodeId.value, order);
      }
    case Evict(n, order) => ExpelAllAges(w, n, order);
    case _ =>
  }

  /** Connection c was accepted at this moment of the run. */
  ghost predicate AcceptedAt(ls: seq<Label>, c: ConnId, since: real) {
    exists i :: 0 <= i < |ls| && ls[i] == Accept(c, since)
  }

  /** The table holds exactly the connections accepted so far, with their moments. */
  ghost predicate AgesAre(w: World, ls: seq<Label>) {
    forall c, since :: AcceptedAt(ls, c, since) <==> c in w.sessions && w.sessions[c].connectedAt == since
  }

  lemma {:induction false} AgesOverRuns(serverId: NodeId, ls: seq<Label>)
    requires PossibleRun(Initial(serverId), ls)
    ensures ConnectionsKnown(Run(Initial(serverId), ls).w) && AgesAre(Run(Initial(serverId), ls).w, ls)
  {
    if ls != [] {
      var init, l := ls[..|ls| - 1], ls[|ls| - 1];
      var w := Run(Initial(serverId), init).w;
      AgesOverRuns(serverId, init);
      StepKnown(w, l);
      OneStepOlder(w, init, l);
      assert ls == init + [l];
    }
  }

  lemma OneStepOlder(w: World, ls: seq<Label>, l: Label)
    requires AgesAre(w, ls) && Possible(w, l)
    ensures AgesAre(Next(w, l), ls + [l])
  {
    if !l.Accept? {
      StepAges(w, l);
    }
    forall c, since
      ensures AcceptedAt(ls + [l], c, since) <==>
              c in Next(w, l).sessions && Next(w, l).sessions[c].connectedAt == since
    {
      AcceptedSnoc(ls, l, c, since);
    }
  }

  lemma AcceptedSnoc(ls: seq<Label>, l: Label, c: ConnId, since: real)
    ensures AcceptedAt(ls + [l], c, since) <==> AcceptedAt(ls, c, since) || l == Accept(c, since)
  {
    var more := ls + [l];
    if i :| 0 <= i < |ls| && ls[i] == Accept(c, since) {
      assert more[i] == Accept(c, since);
    }
    if l == Accept(c, since) {
      assert more[|ls|] == Accept(c, since);
    }
  }

  /**
   * On every run the heartbeat finds a client stale exactly if its connection was accepted more than 30 seconds
   * before, whatever was received on it since.
   */
  lemma StaleExactly(serverId: NodeId, ls: seq<Label>, n: NodeId, now: real)
    requires PossibleRun(Initial(serverId), ls)
    ensures var w := Run(Initial(serverId), ls).w;
            Stale(w, n, now) <==>
            n in w.clients.entries &&
            exists since :: AcceptedAt(ls, w.clients.entries[n], since) && now - since > 30.0
  {
    AgesOverRuns(serverId, ls);
    StaleIs(Run(Initial(serverId), ls).w, ls, n, now);
  }

  lemma StaleIs(w: World, ls: seq<Label>, n: NodeId, now: real)
    requires ConnectionsKnown(w) && AgesAre(w, ls)
    ensures Stale(w, n, now) <==>
            n in w.clients.entries &&
            exists since :: AcceptedAt(ls, w.clients.entries[n], since) && now - since > 30.0
  {
    if n in w.clients.entries {
      assert AcceptedAt(ls, w.clients.entries[n], w.sessions[w.clients.entries[n]].connectedAt);
    }
  }

  // ---------------------------------------------------------------- bans are for good

  /** The rooms there are stay, with everyone who is banned from them. */
  ghost predicate KeepsBans(w: World, v: World) {
    forall r :: r in w.rooms.entries ==> r in v.rooms.entries && w.rooms.entries[r].banned <= v.rooms.entries[r].banned
  }

  lemma {:induction false} ExpelAllKeepsBans(w: World, n: NodeId, rooms: seq<RoomId>)
    ensures KeepsBans(w, ExpelAll(w, n, rooms))
  {
    if rooms != [] {
      ExpelAllKeepsBans(w, n, rooms[..|rooms| - 1]);
    }
  }

  lemma StepKeepsBans(w: World, l: Label)
    requires Possible(w, l)
    ensures KeepsBans(w, Next(w, l))
  {
    match l
    case Receive(c, Join(r, password)) =>
    case Receive(c, Leave(r)) =>
    case Receive(c, _) =>
    case Close(c, order) =>
      if w.sessions[c].nodeId.Some? {
        ExpelAllKeepsBans(w, w.sessions[c].nodeId.value, order);
      }
    case Evict(n, order) => ExpelAllKeepsBans(w, n, order);
    case _ =>
  }

  /** A ban puts the node out, touches nobody else, and keeps it from joining. */
  lemma BanPutsOut(w: World, r: RoomId, n: NodeId, c: ConnId, password: Option<string>)
    requires r in w.rooms.entries
    ensures var v := Outlawed(w, r, n);
            && n in v.rooms.entries[r].banned && !InRoom(v, n, r)
            && (forall m, q :: !(m == n && q == r) ==> (InRoom(v, m, q) <==> InRoom(w, m, q)))
            && (Sender(v, c) == Some(n) ==> !Admitted(v, c, r, password))
  {
  }

  /** Who is banned from a room at some moment of a run is never in it again. */
  lemma {:induction false} BannedForGood(serverId: NodeId, ls: seq<Label>, k: nat, r: RoomId, n: NodeId)
    requires PossibleRun(Initial(serverId), ls) && k <= |ls|
    requires var w := Run(Initial(serverId), ls[..k]).w; r in w.rooms.entries && n in w.rooms.entries[r].banned
    ensures var w := Run(Initial(serverId), ls).w;
            r in w.rooms.entries && n in w.rooms.entries[r].banned && !InRoom(w, n, r)
  {
    RoomsOverRuns(serverId, ls);
    if k == |ls| {
      assert ls[..k] == ls;
    } else {
      var init := ls[..|ls| - 1];
      assert init[..k] == ls[..k];
      BannedForGood(serverId, init, k, r, n);
      StepKeepsBans(Run(Initial(serverId), init).w, ls[|ls| - 1]);
    }
  }

  // ---------------------------------------------------------------- what is new begins with

  /** A room made by the server is empty, owned by the server, as it was asked for, and listed exactly if public. */
  lemma CreatedExactly(w: World, r: RoomId, visibility: Visibility, password: Option<string>, maxMembers: int)
    requires r !in w.rooms.entries
    ensures var v := Created(w, r, visibility, password, maxMembers);
            && r in v.rooms.entries && v.clients == w.clients && v.sessions == w.sessions
            && v.rooms.entries[r] == Room(r, visibility, password, maxMembers, w.serverId, Empty(), {})
            && v.rooms.entries - {r} == w.rooms.entries && v.rooms.order == w.rooms.order + [r]
            && (forall q :: q in v.publicRooms <==> q in w.publicRooms || (q == r && visibility == PUBLIC))
  {
    var entries := Created(w, r, visibility, password, maxMembers).rooms.entries;
    assert entries - {r} == w.rooms.entries;
  }

  /**
   * A connection begins unauthenticated, in no room and under the default name and platform; closing it ends its
   * node.
   */
  lemma SessionsBeginAndEnd(w: World, c: ConnId, now: real, order: seq<RoomId>)
    ensures var v := Accepted(w, c, now);
            && c in v.sessions && v.sessions[c].open && Sender(v, c) == None && v.sessions[c].rooms == {}
            && v.sessions[c].username == "Unknown" && v.sessions[c].platform == "java"
            && v.sessions[c].connectedAt == now
            && v.rooms == w.rooms && v.clients == w.clients && v.sessions - {c} == w.sessions - {c}
    ensures c in w.sessions && w.sessions[c].open ==>
              var v := Closed(w, c, order);
              && c in v.sessions && !v.sessions[c].open && Sender(v, c) == None
              && (w.sessions[c].nodeId.Some? ==> w.sessions[c].nodeId.value !in v.clients.entries)
              && (w.sessions[c].nodeId.None? ==> v.clients == w.clients && v.rooms == w.rooms)
  {
    CloseAges(w, c, order);
  }
}
