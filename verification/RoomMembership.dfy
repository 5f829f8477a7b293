/**
 * Membership is stored twice, in the members of a room and in the rooms of a client: which steps keep the two
 * copies together, exactly.
 */
module RoomMembership {
  import opened Bytes
  import opened PyDict
  import opened RoomState

  /** Node n is in the members of room r exactly when n is a registered client with r in its rooms. */
  ghost predicate Agree(w: World) {
    forall n, r :: InRoom(w, n, r) <==> n in w.clients.entries && r in RoomsOf(w, n)
  }

  /** Once members may be banned, only one direction is left. */
  ghost predicate MembersAreClients(w: World) {
    forall n, r :: InRoom(w, n, r) ==> n in w.clients.entries && r in RoomsOf(w, n)
  }

  /** `bans` says whether `ban_member`, which no packet reaches, may be called. */
  ghost predicate Consistent(w: World, bans: bool) {
    if bans then MembersAreClients(w) else Agree(w)
  }

  /** Both nodes are registered, on one connection. */
  predicate SameConnection(w: World, n: NodeId, m: NodeId) {
    n in w.clients.entries && m in w.clients.entries && w.clients.entries[n] == w.clients.entries[m]
  }

  /** Another node on n's connection is in the room. */
  ghost predicate SharerIn(w: World, n: NodeId, r: RoomId) {
    exists m :: m != n && SameConnection(w, n, m) && InRoom(w, m, r)
  }

  /** Whoever else is on n's connection is in no room. */
  ghost predicate AloneInRooms(w: World, n: NodeId) {
    forall r :: !SharerIn(w, n, r)
  }

  /** The node is registered, on this connection or already in the room; without bans so is everyone else on it. */
  ghost predicate SafeJoin(w: World, c: ConnId, n: NodeId, r: RoomId, bans: bool) {
    && n in w.clients.entries && (w.clients.entries[n] == c || r in RoomsOf(w, n))
    && (bans || forall m :: m != n && m in w.clients.entries && w.clients.entries[m] == c ==> InRoom(w, m, r))
  }

  /** What a caller would have to look up before each step; the code has a guard for none of it. */
  ghost predicate Orderly(w: World, l: Label, bans: bool) {
    match l
    case Receive(c, Auth(_, _, _)) => bans || c !in w.sessions || !w.sessions[c].open || w.sessions[c].rooms == {}
    case Receive(c, Join(r, password)) =>
      Admitted(w, c, r, password) ==> SafeJoin(w, c, Sender(w, c).value, r, bans)
    case Receive(c, Leave(r)) =>
      Sender(w, c).Some? && r in w.sessions[c].rooms ==> !SharerIn(w, Sender(w, c).value, r)
    case Close(c, _) => Sender(w, c).Some? ==> AloneInRooms(w, Sender(w, c).value)
    case Evict(n, _) => AloneInRooms(w, n)
    case Ban(r, n) => bans || !InRoom(w, n, r)
    case _ => true
  }

  // ---------------------------------------------------------------- what each step does to the two copies

  /** The same clients with the same rooms and the same members. */
  lemma SameMembership(w: World, v: World, bans: bool)
    requires v.clients == w.clients
    requires forall n :: n in w.clients.entries ==> RoomsOf(v, n) == RoomsOf(w, n)
    requires forall n, r :: InRoom(v, n, r) <==> InRoom(w, n, r)
    ensures Consistent(v, bans) <==> Consistent(w, bans)
  {
  }

  lemma AdmitEffect(w: World, c: ConnId, n: NodeId, r: RoomId)
    requires c in w.sessions && r in w.rooms.entries
    ensures var v := Admit(w, c, n, r);
            && v.clients == w.clients
            && (forall m, q :: InRoom(v, m, q) <==> InRoom(w, m, q) || (m == n && q == r))
            && (forall m :: RoomsOf(v, m) ==
                  if m in w.clients.entries && w.clients.entries[m] == c then RoomsOf(w, m) + {r} else RoomsOf(w, m))
  {
  }

  lemma ExpelEffect(w: World, n: NodeId, r: RoomId)
    ensures var v := Expel(w, n, r);
            && v.clients == w.clients
            && (forall m, q :: InRoom(v, m, q) <==> InRoom(w, m, q) && !(m == n && q == r))
            && (forall m :: RoomsOf(v, m) == if SameConnection(w, n, m) then RoomsOf(w, m) - {r} else RoomsOf(w, m))
            && (forall c :: Sender(v, c) == Sender(w, c))
  {
  }

  function Elements(rooms: seq<RoomId>): set<RoomId> {
    set r | r in rooms
  }

  lemma {:induction false} ExpelAllEffect(w: World, n: NodeId, rooms: seq<RoomId>)
    ensures var v := ExpelAll(w, n, rooms);
            && v.clients == w.clients
            && (forall m, q :: InRoom(v, m, q) <==> InRoom(w, m, q) && !(m == n && q in rooms))
            && (forall m :: RoomsOf(v, m) ==
                  if SameConnection(w, n, m) then RoomsOf(w, m) - Elements(rooms) else RoomsOf(w, m))
            && (forall c :: Sender(v, c) == Sender(w, c))
  {
    if rooms != [] {
      var init, last := rooms[..|rooms| - 1], rooms[|rooms| - 1];
      var u := ExpelAll(w, n, init);
      ExpelAllEffect(w, n, init);
      ExpelEffect(u, n, last);
      assert forall q :: q in rooms <==> q in init || q == last;
      assert forall m :: SameConnection(u, n, m) == SameConnection(w, n, m);
      assert Elements(rooms) == Elements(init) + {last};
    }
  }

  // ---------------------------------------------------------------- when each step keeps them together

  lemma AdmitExactly(w: World, c: ConnId, n: NodeId, r: RoomId, bans: bool)
    requires Consistent(w, bans) && c in w.sessions && r in w.rooms.entries
    ensures Consistent(Admit(w, c, n, r), bans) <==> SafeJoin(w, c, n, r, bans)
  {
    var v := Admit(w, c, n, r);
    AdmitEffect(w, c, n, r);
    assert InRoom(v, n, r);
    if Consistent(v, bans) && !bans {
      forall m | m != n && m in w.clients.entries && w.clients.entries[m] == c ensures InRoom(w, m, r) {
        assert r in RoomsOf(v, m) ==> InRoom(v, m, r);
      }
    }
  }

  /** A join keeps the two copies together exactly when it is refused or safe. */
  lemma JoinExactly(w: World, c: ConnId, r: RoomId, password: Option<string>, bans: bool)
    requires Consistent(w, bans)
    ensures Consistent(Joined(w, c, r, password), bans) <==>
            (Admitted(w, c, r, password) ==> SafeJoin(w, c, Sender(w, c).value, r, bans))
  {
    if Sender(w, c).Some? {
      var n := Sender(w, c).value;
      var v := OpenRoom(w, n, r, password);
      assert forall m, q :: InRoom(v, m, q) <==> InRoom(w, m, q);
      assert forall m :: RoomsOf(v, m) == RoomsOf(w, m);
      SameMembership(w, v, bans);
      if Admitted(w, c, r, password) {
        AdmitExactly(v, c, n, r, bans);
      }
    }
  }

  /** Authenticating keeps them together exactly when the connection is in no room, or only one direction is asked. */
  lemma AuthExactly(w: World, c: ConnId, n: NodeId, username: string, platform: string, bans: bool)
    requires Consistent(w, bans) && n !in w.clients.entries
    ensures Consistent(Authenticated(w, c, n, username, platform), bans) <==>
            bans || c !in w.sessions || !w.sessions[c].open || w.sessions[c].rooms == {}
  {
    if c in w.sessions && w.sessions[c].open {
      var v := Authenticated(w, c, n, username, platform);
      assert forall m, q :: InRoom(v, m, q) <==> InRoom(w, m, q);
      assert forall m :: RoomsOf(v, m) == if m == n then w.sessions[c].rooms else RoomsOf(w, m);
      if !bans && w.sessions[c].rooms != {} {
        var r :| r in w.sessions[c].rooms;
        assert r in RoomsOf(v, n) && !InRoom(v, n, r);
      }
    }
  }

  lemma ExpelExactly(w: World, n: NodeId, r: RoomId, bans: bool)
    requires Consistent(w, bans)
    ensures Consistent(Expel(w, n, r), bans) <==> !SharerIn(w, n, r)
  {
    var v := Expel(w, n, r);
    ExpelEffect(w, n, r);
    if SharerIn(w, n, r) {
      var m :| m != n && SameConnection(w, n, m) && InRoom(w, m, r);
      assert InRoom(v, m, r) && r !in RoomsOf(v, m);
    } else {
      forall m, q ensures InRoom(v, m, q) ==> m in v.clients.entries && q in RoomsOf(v, m)
                  ensures !bans ==> m in v.clients.entries && q in RoomsOf(v, m) ==> InRoom(v, m, q)
      {
        assert InRoom(w, m, q) ==> m in w.clients.entries && q in RoomsOf(w, m);
      }
    }
  }

  /** What is left of the disconnected node, whatever shares its connection. */
  lemma DropEffect(w: World, n: NodeId, order: seq<RoomId>)
    requires MembersAreClients(w) && Enumerates(order, RoomsOf(w, n))
    ensures var v := Dropped(w, n, order);
            && n !in v.clients.entries
            && (forall r :: !InRoom(v, n, r))
            && (forall m, r :: m != n ==> (InRoom(v, m, r) <==> InRoom(w, m, r)))
            && (forall m :: m != n ==> (m in v.clients.entries <==> m in w.clients.entries))
            && (forall m :: m in v.clients.entries ==> v.clients.entries[m] == w.clients.entries[m])
            && (forall m :: m in v.clients.entries ==>
                  RoomsOf(v, m) == if SameConnection(w, n, m) then {} else RoomsOf(w, m))
  {
    if n in w.clients.entries {
      var u, v := ExpelAll(w, n, order), Dropped(w, n, order);
      ExpelAllEffect(w, n, order);
      assert forall m, r :: InRoom(v, m, r) <==> InRoom(u, m, r);
      forall m | m in v.clients.entries
        ensures RoomsOf(v, m) == if SameConnection(w, n, m) then {} else RoomsOf(w, m)
      {
        assert RoomsOf(v, m) == RoomsOf(u, m);
        assert SameConnection(w, n, m) ==> RoomsOf(w, m) == RoomsOf(w, n);
        assert Elements(order) == RoomsOf(w, n);
      }
    }
  }

  /** A disconnect keeps them together exactly when nobody else on the connection is in any room. */
  lemma DropExactly(w: World, n: NodeId, order: seq<RoomId>, bans: bool)
    requires Consistent(w, bans) && Enumerates(order, RoomsOf(w, n))
    ensures Consistent(Dropped(w, n, order), bans) <==> AloneInRooms(w, n)
  {
    var v := Dropped(w, n, order);
    DropEffect(w, n, order);
    if r :| SharerIn(w, n, r) {
      var m :| m != n && SameConnection(w, n, m) && InRoom(w, m, r);
      assert InRoom(v, m, r) && r !in RoomsOf(v, m);
    } else {
      forall m, q ensures InRoom(v, m, q) ==> m in v.clients.entries && q in RoomsOf(v, m)
                  ensures !bans ==> m in v.clients.entries && q in RoomsOf(v, m) ==> InRoom(v, m, q)
      {
        assert m != n && InRoom(w, m, q) && SameConnection(w, n, m) ==> SharerIn(w, n, q);
        assert InRoom(w, m, q) ==> m in w.clients.entries && q in RoomsOf(w, m);
      }
    }
  }

  lemma CloseExactly(w: World, c: ConnId, order: seq<RoomId>, bans: bool)
    requires Consistent(w, bans) && Possible(w, Close(c, order))
    ensures Consistent(Closed(w, c, order), bans) <==> Orderly(w, Close(c, order), bans)
  {
    if w.sessions[c].open {
      if w.sessions[c].nodeId.Some? {
        var n := w.sessions[c].nodeId.value;
        DropExactly(w, n, order, bans);
        assert Sender(w, c) == Some(n);
        ShutKeeps(Dropped(w, n, order), Closed(w, c, order), c, bans);
      } else {
        ShutKeeps(w, Closed(w, c, order), c, bans);
      }
    }
  }

  lemma ShutKeeps(w: World, v: World, c: ConnId, bans: bool)
    requires v == if c in w.sessions then w.(sessions := w.sessions[c := w.sessions[c].(open := false)]) else w
    ensures Consistent(v, bans) <==> Consistent(w, bans)
  {
    assert forall m, r :: InRoom(v, m, r) <==> InRoom(w, m, r);
    SameMembership(w, v, bans);
  }

  lemma BanExactly(w: World, r: RoomId, n: NodeId, bans: bool)
    requires Consistent(w, bans)
    ensures Consistent(Outlawed(w, r, n), bans) <==> bans || !InRoom(w, n, r)
  {
    var v := Outlawed(w, r, n);
    assert forall m, q :: InRoom(v, m, q) <==> InRoom(w, m, q) && !(m == n && q == r);
    assert forall m :: RoomsOf(v, m) == RoomsOf(w, m);
    if InRoom(w, n, r) {
      assert !InRoom(v, n, r) && r in RoomsOf(v, n);
    }
  }

  lemma AcceptKeeps(w: World, c: ConnId, now: real, bans: bool)
    requires c !in w.sessions
    ensures Consistent(Accepted(w, c, now), bans) <==> Consistent(w, bans)
  {
    var v := Accepted(w, c, now);
    assert forall m, r :: InRoom(v, m, r) <==> InRoom(w, m, r);
    assert forall m :: RoomsOf(v, m) == RoomsOf(w, m);
    SameMembership(w, v, bans);
  }

  lemma CreateKeeps(w: World, r: RoomId, visibility: Visibility, password: Option<string>, maxMembers: int, bans: bool)
    requires r !in w.rooms.entries
    ensures Consistent(Created(w, r, visibility, password, maxMembers), bans) <==> Consistent(w, bans)
  {
    var v := Created(w, r, visibility, password, maxMembers);
    assert forall m, q :: InRoom(v, m, q) <==> InRoom(w, m, q);
    assert forall m :: RoomsOf(v, m) == RoomsOf(w, m);
    SameMembership(w, v, bans);
  }

  /** A step keeps the two copies together (with bans: the members clients) exactly when it is orderly. */
  lemma StepExactly(w: World, l: Label, bans: bool)
    requires Consistent(w, bans) && Possible(w, l)
    ensures Consistent(Next(w, l), bans) <==> Orderly(w, l, bans)
  {
    match l
    case Receive(c, Auth(n, username, platform)) => AuthExactly(w, c, n, username, platform, bans);
    case Receive(c, Join(r, password)) => JoinExactly(w, c, r, password, bans);
    case Receive(c, Leave(r)) =>
      if Sender(w, c).Some? {
        ExpelExactly(w, Sender(w, c).value, r, bans);
      }
    case Receive(c, _) =>
    case Accept(c, now) => AcceptKeeps(w, c, now, bans);
    case Close(c, order) => CloseExactly(w, c, order, bans);
    case Evict(n, order) => DropExactly(w, n, order, bans);
    case Tick(_) =>
    case CreateRoom(r, visibility, password, maxMembers) => CreateKeeps(w, r, visibility, password, maxMembers, bans);
    case Ban(r, n) => BanExactly(w, r, n, bans);
  }

  // ---------------------------------------------------------------- over whole runs

  ghost predicate OrderlyRun(s: State, ls: seq<Label>, bans: bool) {
    ls == [] || (OrderlyRun(s, ls[..|ls| - 1], bans) && Orderly(Run(s, ls[..|ls| - 1]).w, ls[|ls| - 1], bans))
  }

  /** At the end of the run and at every moment before it. */
  ghost predicate ConsistentThroughout(s: State, ls: seq<Label>, bans: bool) {
    Consistent(Run(s, ls).w, bans) && (ls == [] || ConsistentThroughout(s, ls[..|ls| - 1], bans))
  }

  /**
   * The two copies agree (with bans: members are clients) at every moment of a run exactly when every step is
   * orderly.
   */
  lemma {:induction false} MembershipExactly(serverId: NodeId, ls: seq<Label>, bans: bool)
    requires PossibleRun(Initial(serverId), ls)
    ensures ConsistentThroughout(Initial(serverId), ls, bans) <==> OrderlyRun(Initial(serverId), ls, bans)
  {
    if ls != [] {
      var before := Run(Initial(serverId), ls[..|ls| - 1]);
      MembershipExactly(serverId, ls[..|ls| - 1], bans);
      if Consistent(before.w, bans) {
        StepExactly(before.w, ls[|ls| - 1], bans);
      }
    }
  }

  // ---------------------------------------------------------------- only three kinds of step can part them

  /** A connection that two nodes are registered on is in no room. */
  ghost predicate SharedAreIdle(w: World) {
    forall n, m :: n != m && SameConnection(w, n, m) ==> RoomsOf(w, n) == {}
  }

  /** The part of being orderly that is left without bans: leaving, closing and evicting need no condition. */
  ghost predicate Guarded(w: World, l: Label) {
    (l.Receive? && (l.request.Auth? || l.request.Join?)) || l.Ban? ==> Orderly(w, l, false)
  }

  lemma IdleAlone(w: World, n: NodeId)
    requires Agree(w) && SharedAreIdle(w)
    ensures AloneInRooms(w, n)
  {
    forall m, r | m != n && SameConnection(w, n, m) ensures !InRoom(w, m, r) {
      assert SameConnection(w, m, n);
    }
  }

  lemma GuardedIsOrderly(w: World, l: Label)
    requires Agree(w) && SharedAreIdle(w)
    ensures Guarded(w, l) <==> Orderly(w, l, false)
  {
    match l
    case Receive(c, Leave(r)) =>
      if Sender(w, c).Some? {
        IdleAlone(w, Sender(w, c).value);
      }
    case Close(c, _) =>
      if Sender(w, c).Some? {
        IdleAlone(w, Sender(w, c).value);
      }
    case Evict(n, _) => IdleAlone(w, n);
    case _ =>
  }

  lemma AdmitIdle(w: World, c: ConnId, n: NodeId, r: RoomId)
    requires Agree(w) && SharedAreIdle(w) && c in w.sessions && r in w.rooms.entries && SafeJoin(w, c, n, r, false)
    ensures SharedAreIdle(Admit(w, c, n, r))
  {
    var v := Admit(w, c, n, r);
    AdmitEffect(w, c, n, r);
    forall m, k | m != k && SameConnection(v, m, k) ensures RoomsOf(v, m) == {} {
      assert SameConnection(w, m, k) && SameConnection(w, k, m);
      assert RoomsOf(w, m) == {} && RoomsOf(w, k) == {};
      assert !InRoom(w, m, r) && !InRoom(w, k, r);
    }
  }

  lemma DropIdle(w: World, v: World)
    requires SharedAreIdle(w)
    requires forall m :: m in v.clients.entries ==>
               m in w.clients.entries && v.clients.entries[m] == w.clients.entries[m] && RoomsOf(v, m) <= RoomsOf(w, m)
    ensures SharedAreIdle(v)
  {
    forall m, k | m != k && SameConnection(v, m, k) ensures RoomsOf(v, m) == {} {
      assert SameConnection(w, m, k);
    }
  }

  lemma StepIdle(w: World, l: Label)
    requires Agree(w) && SharedAreIdle(w) && Possible(w, l) && Orderly(w, l, false)
    ensures SharedAreIdle(Next(w, l))
  {
    match l
    case Receive(c, Auth(n, username, platform)) => AuthIdle(w, c, n, username, platform);
    case Receive(c, Join(r, password)) => JoinIdle(w, c, r, password);
    case Receive(c, Leave(r)) =>
      if Sender(w, c).Some? {
        ExpelEffect(w, Sender(w, c).value, r);
        DropIdle(w, Expel(w, Sender(w, c).value, r));
      }
    case Receive(c, _) =>
    case Accept(c, now) => DropIdle(w, Next(w, l));
    case Close(c, order) => CloseIdle(w, c, order);
    case Evict(n, order) =>
      DropEffect(w, n, order);
      DropIdle(w, Next(w, l));
    case Tick(_) =>
    case CreateRoom(_, _, _, _) => DropIdle(w, Next(w, l));
    case Ban(_, _) => DropIdle(w, Next(w, l));
  }

  lemma AuthIdle(w: World, c: ConnId, n: NodeId, username: string, platform: string)
    requires SharedAreIdle(w) && n !in w.clients.entries
    requires c !in w.sessions || !w.sessions[c].open || w.sessions[c].rooms == {}
    ensures SharedAreIdle(Authenticated(w, c, n, username, platform))
  {
    if c in w.sessions && w.sessions[c].open {
      var v := Authenticated(w, c, n, username, platform);
      assert forall m :: RoomsOf(v, m) == if m == n then {} else RoomsOf(w, m);
      forall m, k | m != k && SameConnection(v, m, k) ensures RoomsOf(v, m) == {} {
        assert m != n && k != n ==> SameConnection(w, m, k);
      }
    }
  }

  lemma JoinIdle(w: World, c: ConnId, r: RoomId, password: Option<string>)
    requires Agree(w) && SharedAreIdle(w)
    requires Admitted(w, c, r, password) ==> SafeJoin(w, c, Sender(w, c).value, r, false)
    ensures SharedAreIdle(Joined(w, c, r, password))
  {
    if Sender(w, c).Some? {
      var n := Sender(w, c).value;
      var v := OpenRoom(w, n, r, password);
      assert forall m, q :: InRoom(v, m, q) <==> InRoom(w, m, q);
      DropIdle(w, v);
      if Admitted(w, c, r, password) {
        AdmitIdle(v, c, n, r);
      }
    }
  }

  lemma CloseIdle(w: World, c: ConnId, order: seq<RoomId>)
    requires Agree(w) && SharedAreIdle(w) && Possible(w, Close(c, order))
    ensures SharedAreIdle(Closed(w, c, order))
  {
    if w.sessions[c].open {
      var v := w;
      if w.sessions[c].nodeId.Some? {
        v := Dropped(w, w.sessions[c].nodeId.value, order);
        DropEffect(w, w.sessions[c].nodeId.value, order);
        DropIdle(w, v);
      }
      DropIdle(v, Closed(w, c, order));
    }
  }

  ghost predicate GuardedRun(s: State, ls: seq<Label>) {
    ls == [] || (GuardedRun(s, ls[..|ls| - 1]) && Guarded(Run(s, ls[..|ls| - 1]).w, ls[|ls| - 1]))
  }

  /**
   * The two copies agree throughout a run exactly when no connection authenticates while it is in a room, every
   * join that gets in is safe, and nobody is banned while inside. Nothing else can part them.
   */
  lemma {:induction false} AgreementExactly(serverId: NodeId, ls: seq<Label>)
    requires PossibleRun(Initial(serverId), ls)
    ensures ConsistentThroughout(Initial(serverId), ls, false) <==> GuardedRun(Initial(serverId), ls)
    ensures GuardedRun(Initial(serverId), ls) ==> SharedAreIdle(Run(Initial(serverId), ls).w)
  {
    if ls != [] {
      var before, l := Run(Initial(serverId), ls[..|ls| - 1]), ls[|ls| - 1];
      AgreementExactly(serverId, ls[..|ls| - 1]);
      if GuardedRun(Initial(serverId), ls[..|ls| - 1]) {
        GuardedIsOrderly(before.w, l);
        StepExactly(before.w, l, false);
        if Guarded(before.w, l) {
          StepIdle(before.w, l);
        }
      }
    }
  }

  // ---------------------------------------------------------------- a leave undoes a join

  lemma {:induction false} WithoutLast(ks: seq<NodeId>, k: NodeId)
    requires Distinct(ks + [k])
    ensures Without(ks + [k], k) == ks
  {
    var all := ks + [k];
    if ks == [] {
      assert all == [k];
    } else {
      assert all[0] != all[|ks|];
      assert all[1..] == ks[1..] + [k];
      WithoutLast(ks[1..], k);
    }
  }

  lemma PutThenDel(d: Dict<NodeId, Member>, n: NodeId, m: Member)
    requires n !in d.entries
    ensures Del(Put(d, n, m), n) == d
  {
    assert d.entries[n := m] - {n} == d.entries && n !in d.order;
    WithoutLast(d.order, n);
  }

  lemma AdmitThenTakeOut(w: World, c: ConnId, n: NodeId, r: RoomId)
    requires c in w.sessions && r in w.rooms.entries && !InRoom(w, n, r)
    ensures TakeOut(Admit(w, c, n, r), n, r).rooms == w.rooms
  {
    var room, session := w.rooms.entries[r], w.sessions[c];
    var m := Member(n, session.username, if room.ownerId == n then OWNER else MEMBER, session.platform);
    PutThenDel(room.members, n, m);
    var v := TakeOut(Admit(w, c, n, r), n, r);
    assert v.rooms.entries[r] == room;
    assert v.rooms.entries == w.rooms.entries;
  }

  lemma AdmitThenExpel(w: World, c: ConnId, n: NodeId, r: RoomId)
    requires c in w.sessions && r in w.rooms.entries && !InRoom(w, n, r)
    requires n in w.clients.entries && w.clients.entries[n] == c && r !in w.sessions[c].rooms
    ensures Expel(Admit(w, c, n, r), n, r) == w
  {
    AdmitThenTakeOut(w, c, n, r);
    var v := TakeOut(Admit(w, c, n, r), n, r);
    var u := Discard(v, n, r);
    assert u.sessions[c].rooms == w.sessions[c].rooms;
    assert u.sessions == w.sessions;
  }

  /** Joining a room and leaving it again leaves nothing behind, except the room itself if the join made it. */
  lemma JoinThenLeave(w: World, c: ConnId, r: RoomId, password: Option<string>)
    requires Agree(w) && Registered(w, c) && w.sessions[c].open && Admitted(w, c, r, password)
    requires !InRoom(w, Sender(w, c).value, r)
    ensures Left(Joined(w, c, r, password), c, r) == OpenRoom(w, Sender(w, c).value, r, password)
  {
    var n := Sender(w, c).value;
    assert r !in RoomsOf(w, n);
    AdmitThenExpel(OpenRoom(w, n, r, password), c, n, r);
  }

  // ---------------------------------------------------------------- runs on which membership parts

  /** A server with client "a" on connection 0. */
  lemma OneClient() returns (ls: seq<Label>, w: World)
    ensures PossibleRun(Initial("s"), ls) && w == Run(Initial("s"), ls).w
    ensures w.rooms == Empty() && w.clients.entries == map["a" := 0]
    ensures w.sessions == map[0 := Session(Some("a"), "u", "java", {}, 0.0, true)]
  {
    var s := Initial("s");
    RunSnoc(s, [], Accept(0, 0.0));
    RunSnoc(s, [Accept(0, 0.0)], Receive(0, Auth("a", "u", "java")));
    assert Enumerates([], {});
    ls := [] + [Accept(0, 0.0)] + [Receive(0, Auth("a", "u", "java"))];
    w := Run(s, ls).w;
  }

  /** A client the heartbeat dropped can still join: then it is a member without being a client. */
  lemma EvictedJoins() returns (ls: seq<Label>)
    ensures PossibleRun(Initial("s"), ls)
    ensures var w := Run(Initial("s"), ls).w; InRoom(w, "a", "r") && "a" !in w.clients.entries
  {
    var w: World;
    ls, w := OneClient();
    var s := Initial("s");
    RunSnoc(s, ls, Evict("a", []));
    assert Enumerates([], RoomsOf(w, "a"));
    ls := ls + [Evict("a", [])];
    RunSnoc(s, ls, Receive(0, Join("r", None)));
    ls := ls + [Receive(0, Join("r", None))];
  }

  /** The same client inside room "r", which it made. */
  lemma OneMember() returns (ls: seq<Label>, w: World)
    ensures PossibleRun(Initial("s"), ls) && w == Run(Initial("s"), ls).w
    ensures w.clients.entries == map["a" := 0] && forall n, r :: InRoom(w, n, r) <==> n == "a" && r == "r"
    ensures InRoom(w, "a", "r")
    ensures var room := w.rooms.entries["r"];
            room.password == None && room.banned == {} && room.maxMembers == 100 && room.members.entries.Keys == {"a"}
    ensures w.sessions == map[0 := Session(Some("a"), "u", "java", {"r"}, 0.0, true)]
  {
    var v: World;
    ls, v := OneClient();
    RunSnoc(Initial("s"), ls, Receive(0, Join("r", None)));
    ls := ls + [Receive(0, Join("r", None))];
    w := Run(Initial("s"), ls).w;
    assert w == Joined(v, 0, "r", None);
  }

  /** A client that joins and then authenticates again stays in the room under its first id after it is gone. */
  lemma TwiceAuthenticated() returns (ls: seq<Label>)
    ensures PossibleRun(Initial("s"), ls)
    ensures var w := Run(Initial("s"), ls).w; InRoom(w, "a", "r") && forall c :: c in w.sessions ==> !w.sessions[c].open
  {
    var w: World;
    ls, w := OneMember();
    var s := Initial("s");
    assert "a"[0] != "b"[0];
    RunSnoc(s, ls, Receive(0, Auth("b", "u", "java")));
    ls := ls + [Receive(0, Auth("b", "u", "java"))];
    var v := Authenticated(w, 0, "b", "u", "java");
    assert Run(s, ls).w == v;
    CloseAfterSecond(v);
    RunSnoc(s, ls, Close(0, ["r"]));
    ls := ls + [Close(0, ["r"])];
  }

  lemma CloseAfterSecond(v: World)
    requires v.sessions == map[0 := Session(Some("b"), "u", "java", {"r"}, 0.0, true)]
    requires v.clients.entries == map["a" := 0, "b" := 0] && InRoom(v, "a", "r")
    ensures Possible(v, Close(0, ["r"]))
    ensures var u := Closed(v, 0, ["r"]); InRoom(u, "a", "r") && forall c :: c in u.sessions ==> !u.sessions[c].open
  {
    assert "a"[0] != "b"[0];
    assert ["r"][..0] == [];
    assert ExpelAll(v, "b", []) == v;
    assert ExpelAll(v, "b", ["r"]) == Expel(v, "b", "r");
  }
}
