/**
 * What can happen inside a disconnect. A handler waits only where a response is written to its socket, and an
 * eviction issues one response to each member of the room it is just leaving: another handler can run then.
 */
module RoomWaits {
  import opened Bytes
  import opened PyDict
  import opened RoomState
  import opened RoomInvariants
  import opened RoomMembership
  import opened RoomLog
  import FastLinkPacket

  // ---------------------------------------------------------------- where an eviction waits

  /** The tables while room q is told: the node is out of the members, and q is still in the client's set. */
  function Midway(w: World, n: NodeId, done: seq<RoomId>, q: RoomId): World {
    var v := ExpelAll(w, n, done);
    if InRoom(v, n, q) then TakeOut(v, n, q) else v
  }

  /** A broadcast with this number and text gets as far as the socket; before that nothing waits. */
  predicate Written(sequence: nat, text: bytes, clock: int) {
    FastLinkPacket.Sendable(FastLinkPacket.Header(0x0200, 0x13, sequence, 0, 0, 0), text, clock)
  }

  /** Someone is there to be told that n left q, and the notice is written. */
  ghost predicate Pauses(v: World, q: RoomId, sequence: nat, text: bytes, clock: int) {
    Written(sequence, text, clock) && exists m :: m in v.clients.entries && InRoom(v, m, q)
  }

  /** Leaving a room issues a response exactly if a registered member stays behind in it. */
  lemma ToldExactly(s: State, n: NodeId, q: RoomId)
    requires RoomsOk(s.w) && InRoom(s.w, n, q)
    ensures Remove(s, n, q).log != s.log <==> exists m :: m != n && m in s.w.clients.entries && InRoom(s.w, m, q)
  {
    var w := Expel(s.w, n, q);
    var t := s.(w := w);
    ExpelKeepsRooms(s.w, n, q);
    ExpelEffect(s.w, n, q);
    BroadcastExactly(t, q, MemberLeft(n, s.w.rooms.entries[q].members.entries[n].username), {});
    var u := Remove(s, n, q);
    if m :| m != n && m in s.w.clients.entries && InRoom(s.w, m, q) {
      assert InRoom(w, m, q) && m in Audience(w, q, {});
    }
    if u.log != s.log {
      assert |u.log| > |s.log|;
      var m := u.log[|s.log|].node;
      assert m in Audience(w, q, {}) && InRoom(w, m, q);
    }
  }

  /** The eviction waits there exactly if a response is issued and its numbers and its text fit their fields. */
  lemma PausesExactly(s: State, n: NodeId, q: RoomId, sequence: nat, text: bytes, clock: int)
    requires RoomsOk(s.w) && InRoom(s.w, n, q)
    ensures Pauses(Midway(s.w, n, [], q), q, sequence, text, clock) <==>
            && Remove(s, n, q).log != s.log
            && sequence < 0x1_0000_0000 && 0 <= clock < 0x1_0000_0000 && |text| < 0x1_0000_0000
  {
    ToldExactly(s, n, q);
    var v := Midway(s.w, n, [], q);
    assert v.clients == s.w.clients && forall m :: InRoom(v, m, q) <==> m != n && InRoom(s.w, m, q);
  }

  /** From 2^32 milliseconds after the epoch on no notice is written: an eviction runs through without a pause. */
  lemma NoPauseToday(v: World, q: RoomId, sequence: nat, text: bytes, clock: int)
    ensures clock >= 0x1_0000_0000 ==> !Pauses(v, q, sequence, text, clock)
  {
  }

  // ---------------------------------------------------------------- how it goes on

  /** The tables an eviction leaves, and whether an exception ended it. */
  datatype End = End(w: World, raised: bool)

  function Size(w: World, q: RoomId): nat {
    if q in w.rooms.entries then |w.rooms.entries[q].members.entries| else 0
  }

  /**
   * The eviction goes on after a pause during which the tables went from v to u. Going through a dictionary whose
   * size has changed raises, which leaves the eviction where it is; so does deleting a client that is gone.
   */
  function Resumed(v: World, u: World, n: NodeId, q: RoomId, todo: seq<RoomId>): End {
    if Size(u, q) != Size(v, q) then End(u, true)
    else
      var x := ExpelAll(Discard(u, n, q), n, todo);
      End(x.(clients := Del(x.clients, n)), n !in x.clients.entries)
  }

  lemma MidwayEffect(w: World, n: NodeId, done: seq<RoomId>, q: RoomId)
    ensures var v := Midway(w, n, done, q);
            && v.clients == w.clients
            && (forall m, x :: InRoom(v, m, x) <==> InRoom(w, m, x) && !(m == n && (x in done || x == q)))
            && (forall m :: RoomsOf(v, m) ==
                  if SameConnection(w, n, m) then RoomsOf(w, m) - Elements(done) else RoomsOf(w, m))
            && (forall c :: Sender(v, c) == Sender(w, c))
  {
    ExpelAllEffect(w, n, done);
    TakeOutEffect(ExpelAll(w, n, done), n, q);
  }

  lemma TakeOutEffect(w: World, n: NodeId, q: RoomId)
    ensures var v := if InRoom(w, n, q) then TakeOut(w, n, q) else w;
            && v.clients == w.clients && v.sessions == w.sessions
            && (forall m, x :: InRoom(v, m, x) <==> InRoom(w, m, x) && !(m == n && x == q))
  {
  }

  lemma DiscardEffect(w: World, n: NodeId, q: RoomId)
    ensures var v := Discard(w, n, q);
            && v.clients == w.clients && v.rooms == w.rooms
            && (forall m :: RoomsOf(v, m) == if SameConnection(w, n, m) then RoomsOf(w, m) - {q} else RoomsOf(w, m))
  {
  }

  lemma ResumedEffect(v: World, u: World, n: NodeId, q: RoomId, todo: seq<RoomId>)
    requires Size(u, q) == Size(v, q)
    ensures var end := Resumed(v, u, n, q, todo);
            && end.raised == (n !in u.clients.entries) && n !in end.w.clients.entries
            && (forall m :: m != n ==> (m in end.w.clients.entries <==> m in u.clients.entries))
            && (forall m, x :: InRoom(end.w, m, x) <==> InRoom(u, m, x) && !(m == n && x in todo))
            && (forall m :: m in end.w.clients.entries ==>
                  RoomsOf(end.w, m) ==
                  if SameConnection(u, n, m) then RoomsOf(u, m) - {q} - Elements(todo) else RoomsOf(u, m))
  {
    var d := Discard(u, n, q);
    var x := ExpelAll(d, n, todo);
    DiscardEffect(u, n, q);
    ExpelAllEffect(d, n, todo);
    var w := Resumed(v, u, n, q, todo).w;
    assert forall m, r :: InRoom(w, m, r) <==> InRoom(x, m, r);
    assert forall m, r :: InRoom(d, m, r) <==> InRoom(u, m, r);
    forall m | m in w.clients.entries
      ensures RoomsOf(w, m) == if SameConnection(u, n, m) then RoomsOf(u, m) - {q} - Elements(todo) else RoomsOf(u, m)
    {
      assert RoomsOf(w, m) == RoomsOf(x, m);
      assert SameConnection(d, n, m) == SameConnection(u, n, m);
    }
  }

  /** Everyone but n is in the members of a room exactly when that room is in the client's set. */
  ghost predicate OthersAgree(w: World, n: NodeId) {
    forall m, x :: m != n ==> (InRoom(w, m, x) <==> m in w.clients.entries && x in RoomsOf(w, m))
  }

  ghost predicate Alone(w: World, n: NodeId) {
    forall m :: m != n ==> !SameConnection(w, n, m)
  }

  /** An eviction that runs to its end removes the client, and nothing parts the copies but a room it is left in. */
  lemma ResumedAlone(v: World, u: World, n: NodeId, q: RoomId, todo: seq<RoomId>)
    requires Size(u, q) == Size(v, q) && n in u.clients.entries && Alone(u, n) && OthersAgree(u, n)
    ensures var end := Resumed(v, u, n, q, todo);
            && !end.raised && n !in end.w.clients.entries
            && (forall x :: InRoom(end.w, n, x) <==> InRoom(u, n, x) && x !in todo)
            && (Agree(end.w) <==> forall x :: InRoom(u, n, x) ==> x in todo)
  {
    var end := Resumed(v, u, n, q, todo);
    ResumedEffect(v, u, n, q, todo);
    forall m, x | m != n ensures InRoom(end.w, m, x) <==> m in end.w.clients.entries && x in RoomsOf(end.w, m) {
      assert !SameConnection(u, n, m);
      assert InRoom(end.w, m, x) <==> InRoom(u, m, x);
      assert m in end.w.clients.entries ==> RoomsOf(end.w, m) == RoomsOf(u, m);
    }
  }

  lemma JoinedEffect(w: World, c: ConnId, n: NodeId, r: RoomId, password: Option<string>)
    requires Sender(w, c) == Some(n)
    ensures var v := Joined(w, c, r, password);
            && v.clients == w.clients
            && (forall m, x :: InRoom(v, m, x) <==>
                  InRoom(w, m, x) || (m == n && x == r && Admitted(w, c, r, password)))
            && (forall m :: RoomsOf(v, m) ==
                  if Admitted(w, c, r, password) && m in w.clients.entries && w.clients.entries[m] == c
                  then RoomsOf(w, m) + {r} else RoomsOf(w, m))
            && (forall q :: Size(v, q) ==
                  Size(w, q) + if Admitted(w, c, r, password) && q == r && !InRoom(w, n, q) then 1 else 0)
  {
    var u := OpenRoom(w, n, r, password);
    assert forall m, x :: InRoom(u, m, x) <==> InRoom(w, m, x);
    assert forall m :: RoomsOf(u, m) == RoomsOf(w, m);
    assert forall q :: Size(u, q) == Size(w, q);
    if Admitted(w, c, r, password) {
      AdmitEffect(u, c, n, r);
    }
  }

  // ---------------------------------------------------------------- the client's own join

  /** The eviction of n is under way: the rooms `done` are left, q is being told, the rooms `todo` are still to come. */
  ghost predicate Evicting(w: World, c: ConnId, n: NodeId, done: seq<RoomId>, q: RoomId, todo: seq<RoomId>) {
    && Agree(w) && SharedAreIdle(w) && Enumerates(done + [q] + todo, RoomsOf(w, n))
    && n in w.clients.entries && w.clients.entries[n] == c && c in w.sessions
  }

  lemma EvictingAlone(w: World, c: ConnId, n: NodeId, done: seq<RoomId>, q: RoomId, todo: seq<RoomId>)
    requires Evicting(w, c, n, done, q, todo)
    ensures Alone(w, n) && q !in done && InRoom(w, n, q)
    ensures forall x :: InRoom(w, n, x) <==> x in done || x == q || x in todo
    ensures RoomsOf(w, n) == Elements(done) + {q} + Elements(todo)
    ensures forall x :: x in todo ==> x !in done && x != q
  {
    var order := done + [q] + todo;
    assert order[|done|] == q && q in order;
    assert forall i :: 0 <= i < |done| ==> order[i] == done[i];
    assert forall x :: x in order <==> x in done || x == q || x in todo;
    forall x | x in todo ensures x !in done && x != q {
      var i :| 0 <= i < |todo| && todo[i] == x;
      assert order[|done| + 1 + i] == x;
      assert forall j :: 0 <= j < |done| ==> done[j] == order[j] != order[|done| + 1 + i];
    }
  }

  /**
   * A client's own join of r during its eviction. If it gets into the room being told, the eviction stops with an
   * exception: the client stays registered, in that room and in the rooms to come. Otherwise the eviction ends,
   * and leaves the node in r exactly if the join got in and r was not still to come. So afterwards the two copies
   * agree unless it got into a room that the eviction was through with.
   */
  lemma OwnJoin(w: World, c: ConnId, n: NodeId, done: seq<RoomId>, q: RoomId, todo: seq<RoomId>, r: RoomId,
                password: Option<string>)
    requires Evicting(w, c, n, done, q, todo) && Sender(w, c) == Some(n)
    ensures var v := Midway(w, n, done, q);
            var end := Resumed(v, Joined(v, c, r, password), n, q, todo);
            var gotIn := Admitted(v, c, r, password);
            && (end.raised <==> gotIn && r == q)
            && (end.raised ==> n in end.w.clients.entries && forall x :: InRoom(end.w, n, x) <==> x == q || x in todo)
            && (!end.raised ==> n !in end.w.clients.entries &&
                                forall x :: InRoom(end.w, n, x) <==> gotIn && x == r && r !in todo)
            && (Agree(end.w) <==> !gotIn || r == q || r in todo)
  {
    var v := Midway(w, n, done, q);
    var u, gotIn := Joined(v, c, r, password), Admitted(v, c, r, password);
    OwnEffect(w, c, n, done, q, todo, r, password);
    if gotIn && r == q {
      OwnRejoin(w, c, n, done, q, todo, u);
    } else {
      OwnElsewhere(w, c, n, done, q, todo, r, gotIn, v, u);
    }
  }

  lemma OwnEffect(w: World, c: ConnId, n: NodeId, done: seq<RoomId>, q: RoomId, todo: seq<RoomId>, r: RoomId,
                  password: Option<string>)
    requires Evicting(w, c, n, done, q, todo) && Sender(w, c) == Some(n)
    ensures var v := Midway(w, n, done, q);
            var u, gotIn := Joined(v, c, r, password), Admitted(v, c, r, password);
            && u.clients == w.clients && Size(u, q) == Size(v, q) + (if gotIn && r == q then 1 else 0)
            && (forall m, x :: InRoom(u, m, x) <==>
                  (InRoom(w, m, x) && !(m == n && (x in done || x == q))) || (m == n && x == r && gotIn))
            && (forall m :: RoomsOf(u, m) ==
                  if m == n then RoomsOf(w, n) - Elements(done) + (if gotIn then {r} else {}) else RoomsOf(w, m))
  {
    var v := Midway(w, n, done, q);
    EvictingAlone(w, c, n, done, q, todo);
    MidwayEffect(w, n, done, q);
    JoinedEffect(v, c, n, r, password);
    assert !InRoom(v, n, q);
    forall m ensures SameConnection(w, n, m) <==> m == n {
    }
    forall m ensures m in w.clients.entries && w.clients.entries[m] == c <==> m == n {
      assert m != n ==> !SameConnection(w, n, m);
    }
  }

  lemma OwnElsewhere(w: World, c: ConnId, n: NodeId, done: seq<RoomId>, q: RoomId, todo: seq<RoomId>, r: RoomId,
                     gotIn: bool, v: World, u: World)
    requires Evicting(w, c, n, done, q, todo) && u.clients == w.clients
    requires Size(u, q) == Size(v, q) && !(gotIn && r == q)
    requires forall m, x :: InRoom(u, m, x) <==>
               (InRoom(w, m, x) && !(m == n && (x in done || x == q))) || (m == n && x == r && gotIn)
    requires forall m :: m != n ==> RoomsOf(u, m) == RoomsOf(w, m)
    ensures var end := Resumed(v, u, n, q, todo);
            && !end.raised && n !in end.w.clients.entries
            && (forall x :: InRoom(end.w, n, x) <==> gotIn && x == r && r !in todo)
            && (Agree(end.w) <==> !gotIn || r in todo)
  {
    EvictingAlone(w, c, n, done, q, todo);
    assert Alone(u, n) by {
      assert forall m :: SameConnection(u, n, m) <==> SameConnection(w, n, m);
    }
    assert OthersAgree(u, n);
    ResumedAlone(v, u, n, q, todo);
    assert gotIn ==> InRoom(u, n, r);
  }

  lemma OwnRejoin(w: World, c: ConnId, n: NodeId, done: seq<RoomId>, q: RoomId, todo: seq<RoomId>, u: World)
    requires Evicting(w, c, n, done, q, todo) && u.clients == w.clients
    requires forall m, x :: InRoom(u, m, x) <==>
               (InRoom(w, m, x) && !(m == n && (x in done || x == q))) || (m == n && x == q)
    requires forall m :: RoomsOf(u, m) == if m == n then RoomsOf(w, n) - Elements(done) + {q} else RoomsOf(w, m)
    ensures Agree(u) && n in u.clients.entries && forall x :: InRoom(u, n, x) <==> x == q || x in todo
  {
    EvictingAlone(w, c, n, done, q, todo);
  }

  // ---------------------------------------------------------------- another handler

  /** A step of somebody else: not on n's connection, not for n, and not the end of n. */
  predicate ByAnother(w: World, l: Label, n: NodeId, c: ConnId) {
    match l
    case Receive(d, _) => d != c && Sender(w, d) != Some(n)
    case Close(d, _) => d != c && (d in w.sessions ==> w.sessions[d].nodeId != Some(n))
    case Evict(m, _) => m != n
    case _ => true
  }

  /** The same tables with one more room in a client's set. */
  function WithRoom(w: World, c: ConnId, q: RoomId): World {
    if c in w.sessions then w.(sessions := w.sessions[c := w.sessions[c].(rooms := w.sessions[c].rooms + {q})]) else w
  }

  /** Registered on a connection of its own, with these rooms. */
  ghost predicate Settled(w: World, c: ConnId, n: NodeId, rooms: set<RoomId>) {
    && n in w.clients.entries && w.clients.entries[n] == c && c in w.sessions && w.sessions[c].rooms == rooms
    && Alone(w, n)
  }

  /** In the middle the tables are those of the rooms left so far, but for the room being told. */
  lemma MidwayIs(w: World, c: ConnId, n: NodeId, done: seq<RoomId>, q: RoomId, todo: seq<RoomId>)
    requires Evicting(w, c, n, done, q, todo)
    ensures var b := ExpelAll(w, n, done + [q]);
            && Midway(w, n, done, q) == WithRoom(b, c, q) && Agree(b) && Settled(b, c, n, Elements(todo))
  {
    EvictingAlone(w, c, n, done, q, todo);
    ExpelAllEffect(w, n, done);
    SessionKept(w, c, n, done);
    assert RoomsOf(ExpelAll(w, n, done), n) == RoomsOf(w, n) - Elements(done);
    assert (done + [q])[..|done|] == done;
    MidwaySession(ExpelAll(w, n, done), c, n, q);
    LeftSoFar(w, c, n, done, q, todo);
  }

  lemma MidwaySession(half: World, c: ConnId, n: NodeId, q: RoomId)
    requires n in half.clients.entries && half.clients.entries[n] == c
    requires c in half.sessions && q in half.sessions[c].rooms
    ensures (if InRoom(half, n, q) then TakeOut(half, n, q) else half) == WithRoom(Expel(half, n, q), c, q)
  {
    var v, b := if InRoom(half, n, q) then TakeOut(half, n, q) else half, Expel(half, n, q);
    assert b == Discard(v, n, q);
    assert v.sessions[c].rooms - {q} + {q} == v.sessions[c].rooms;
    assert WithRoom(b, c, q).sessions == v.sessions;
  }

  lemma LeftSoFar(w: World, c: ConnId, n: NodeId, done: seq<RoomId>, q: RoomId, todo: seq<RoomId>)
    requires Evicting(w, c, n, done, q, todo)
    ensures var b := ExpelAll(w, n, done + [q]); Agree(b) && Settled(b, c, n, Elements(todo))
  {
    var b := ExpelAll(w, n, done + [q]);
    EvictingAlone(w, c, n, done, q, todo);
    ExpelAllEffect(w, n, done + [q]);
    SessionKept(w, c, n, done + [q]);
    forall m ensures SameConnection(b, n, m) <==> SameConnection(w, n, m) {
    }
    assert RoomsOf(b, n) == Elements(todo);
    forall m, x ensures InRoom(b, m, x) <==> m in b.clients.entries && x in RoomsOf(b, m) {
      assert InRoom(w, m, x) <==> m in w.clients.entries && x in RoomsOf(w, m);
      assert m != n ==> !SameConnection(w, n, m);
    }
  }

  lemma {:induction false} SessionKept(w: World, c: ConnId, n: NodeId, rooms: seq<RoomId>)
    ensures c in ExpelAll(w, n, rooms).sessions <==> c in w.sessions
  {
    if rooms != [] {
      SessionKept(w, c, n, rooms[..|rooms| - 1]);
    }
  }

  lemma ExpelCommutes(b: World, c: ConnId, q: RoomId, m: NodeId, r: RoomId)
    requires c in b.sessions && (m in b.clients.entries ==> b.clients.entries[m] != c)
    ensures Expel(WithRoom(b, c, q), m, r) == WithRoom(Expel(b, m, r), c, q)
    ensures var u := Expel(b, m, r); u.clients == b.clients && c in u.sessions && u.sessions[c] == b.sessions[c]
  {
    var x, y := Expel(WithRoom(b, c, q), m, r), WithRoom(Expel(b, m, r), c, q);
    assert x.sessions == y.sessions;
  }

  lemma {:induction false} ExpelAllCommutes(b: World, c: ConnId, q: RoomId, m: NodeId, rooms: seq<RoomId>)
    requires c in b.sessions && (m in b.clients.entries ==> b.clients.entries[m] != c)
    ensures ExpelAll(WithRoom(b, c, q), m, rooms) == WithRoom(ExpelAll(b, m, rooms), c, q)
    ensures var u := ExpelAll(b, m, rooms); u.clients == b.clients && c in u.sessions && u.sessions[c] == b.sessions[c]
  {
    if rooms != [] {
      ExpelAllCommutes(b, c, q, m, rooms[..|rooms| - 1]);
      ExpelCommutes(ExpelAll(b, m, rooms[..|rooms| - 1]), c, q, m, rooms[|rooms| - 1]);
    }
  }

  lemma DroppedCommutes(b: World, c: ConnId, n: NodeId, q: RoomId, rooms: set<RoomId>, m: NodeId, order: seq<RoomId>)
    requires Settled(b, c, n, rooms) && m != n
    ensures Dropped(WithRoom(b, c, q), m, order) == WithRoom(Dropped(b, m, order), c, q)
    ensures Settled(Dropped(b, m, order), c, n, rooms)
  {
    assert !SameConnection(b, n, m);
    ExpelAllCommutes(b, c, q, m, order);
    var u := Dropped(b, m, order);
    assert forall k :: SameConnection(u, n, k) ==> SameConnection(b, n, k);
  }

  lemma JoinCommutes(b: World, c: ConnId, n: NodeId, q: RoomId, rooms: set<RoomId>, d: ConnId, r: RoomId,
                     password: Option<string>)
    requires Settled(b, c, n, rooms) && d != c
    ensures Joined(WithRoom(b, c, q), d, r, password) == WithRoom(Joined(b, d, r, password), c, q)
    ensures Settled(Joined(b, d, r, password), c, n, rooms)
  {
    if Sender(b, d).Some? {
      var m := Sender(b, d).value;
      var v := OpenRoom(b, m, r, password);
      assert OpenRoom(WithRoom(b, c, q), m, r, password) == WithRoom(v, c, q);
      StillSettled(b, v, c, n, rooms);
      if Admitted(b, d, r, password) {
        AdmitCommutes(v, c, n, q, rooms, d, m, r);
      }
    }
  }

  lemma AdmitCommutes(b: World, c: ConnId, n: NodeId, q: RoomId, rooms: set<RoomId>, d: ConnId, m: NodeId, r: RoomId)
    requires Settled(b, c, n, rooms) && d != c && d in b.sessions && r in b.rooms.entries
    ensures Admit(WithRoom(b, c, q), d, m, r) == WithRoom(Admit(b, d, m, r), c, q)
    ensures Settled(Admit(b, d, m, r), c, n, rooms)
  {
    assert Admit(WithRoom(b, c, q), d, m, r).sessions == WithRoom(Admit(b, d, m, r), c, q).sessions;
    StillSettled(b, Admit(b, d, m, r), c, n, rooms);
  }

  lemma StillSettled(b: World, u: World, c: ConnId, n: NodeId, rooms: set<RoomId>)
    requires Settled(b, c, n, rooms) && c in u.sessions && u.sessions[c].rooms == rooms && n in u.clients.entries
    requires forall k :: k in u.clients.entries ==>
               k in b.clients.entries && u.clients.entries[k] == b.clients.entries[k]
    ensures Settled(u, c, n, rooms)
  {
    assert forall k :: SameConnection(u, n, k) ==> SameConnection(b, n, k);
  }

  lemma AuthCommutes(b: World, c: ConnId, n: NodeId, q: RoomId, rooms: set<RoomId>, d: ConnId, m: NodeId,
                     username: string, platform: string)
    requires Settled(b, c, n, rooms) && d != c && m !in b.clients.entries
    ensures Authenticated(WithRoom(b, c, q), d, m, username, platform) ==
            WithRoom(Authenticated(b, d, m, username, platform), c, q)
    ensures Settled(Authenticated(b, d, m, username, platform), c, n, rooms)
  {
    var u := Authenticated(b, d, m, username, platform);
    assert Authenticated(WithRoom(b, c, q), d, m, username, platform).sessions == WithRoom(u, c, q).sessions;
    forall k | k != n ensures !SameConnection(u, n, k) {
      assert !SameConnection(b, n, k);
    }
  }

  lemma CloseCommutes(b: World, c: ConnId, n: NodeId, q: RoomId, rooms: set<RoomId>, d: ConnId, order: seq<RoomId>)
    requires Settled(b, c, n, rooms) && d != c && (d in b.sessions ==> b.sessions[d].nodeId != Some(n))
    ensures Closed(WithRoom(b, c, q), d, order) == WithRoom(Closed(b, d, order), c, q)
    ensures Settled(Closed(b, d, order), c, n, rooms)
  {
    if d in b.sessions && b.sessions[d].open {
      var v := b;
      if b.sessions[d].nodeId.Some? {
        v := Dropped(b, b.sessions[d].nodeId.value, order);
        DroppedCommutes(b, c, n, q, rooms, b.sessions[d].nodeId.value, order);
      }
      ShutCommutes(v, c, q, d);
      StillSettled(v, Closed(b, d, order), c, n, rooms);
    }
  }

  function Shut(w: World, d: ConnId): World {
    if d in w.sessions then w.(sessions := w.sessions[d := w.sessions[d].(open := false)]) else w
  }

  lemma ShutCommutes(v: World, c: ConnId, q: RoomId, d: ConnId)
    requires d != c
    ensures Shut(WithRoom(v, c, q), d) == WithRoom(Shut(v, d), c, q)
  {
    assert Shut(WithRoom(v, c, q), d).sessions == WithRoom(Shut(v, d), c, q).sessions;
  }

  lemma LeaveCommutes(b: World, c: ConnId, n: NodeId, q: RoomId, rooms: set<RoomId>, d: ConnId, r: RoomId)
    requires Settled(b, c, n, rooms) && d != c && Sender(b, d) != Some(n)
    ensures Left(WithRoom(b, c, q), d, r) == WithRoom(Left(b, d, r), c, q)
    ensures Settled(Left(b, d, r), c, n, rooms)
  {
    if Sender(b, d).Some? && r in b.sessions[d].rooms {
      var m := Sender(b, d).value;
      assert !SameConnection(b, n, m);
      ExpelCommutes(b, c, q, m, r);
      assert forall k :: SameConnection(Left(b, d, r), n, k) ==> SameConnection(b, n, k);
    }
  }

  /** A step of somebody else does the same with and without that room, and leaves n where it is. */
  lemma StepCommutes(b: World, c: ConnId, n: NodeId, q: RoomId, rooms: set<RoomId>, l: Label)
    requires Settled(b, c, n, rooms) && ByAnother(b, l, n, c) && Possible(b, l)
    ensures Next(WithRoom(b, c, q), l) == WithRoom(Next(b, l), c, q)
    ensures Settled(Next(b, l), c, n, rooms)
  {
    var u := Next(b, l);
    match l
    case Receive(d, Auth(m, username, platform)) => AuthCommutes(b, c, n, q, rooms, d, m, username, platform);
    case Receive(d, Join(r, password)) => JoinCommutes(b, c, n, q, rooms, d, r, password);
    case Receive(d, Leave(r)) => LeaveCommutes(b, c, n, q, rooms, d, r);
    case Receive(d, _) =>
    case Close(d, order) => CloseCommutes(b, c, n, q, rooms, d, order);
    case Evict(m, order) => DroppedCommutes(b, c, n, q, rooms, m, order);
    case Accept(d, now) =>
      assert Next(WithRoom(b, c, q), l).sessions == WithRoom(u, c, q).sessions;
      assert forall k :: SameConnection(u, n, k) <==> SameConnection(b, n, k);
    case _ =>
      assert forall k :: SameConnection(u, n, k) <==> SameConnection(b, n, k);
  }

  /** For a step of somebody else it makes no difference to what is asked of it either. */
  lemma GuardsSame(b: World, c: ConnId, n: NodeId, q: RoomId, rooms: set<RoomId>, l: Label)
    requires Settled(b, c, n, rooms) && ByAnother(b, l, n, c)
    ensures Possible(WithRoom(b, c, q), l) ==> Possible(b, l)
    ensures Orderly(WithRoom(b, c, q), l, false) ==> Orderly(b, l, false)
  {
    var v := WithRoom(b, c, q);
    forall m | m != n ensures RoomsOf(v, m) == RoomsOf(b, m) {
      assert !SameConnection(b, n, m);
    }
    if Possible(v, l) {
      match l
      case Close(d, order) =>
      case Evict(m, order) =>
      case _ =>
    }
    if Orderly(v, l, false) {
      OrderlySame(b, v, l, n, c);
    }
  }

  lemma OrderlySame(b: World, v: World, l: Label, n: NodeId, c: ConnId)
    requires ByAnother(b, l, n, c) && v.rooms == b.rooms && v.clients == b.clients
    requires forall m :: m != n ==> RoomsOf(v, m) == RoomsOf(b, m)
    requires v.sessions.Keys == b.sessions.Keys
    requires forall d :: d in b.sessions && d != c ==> v.sessions[d] == b.sessions[d]
    requires c in b.sessions && v.sessions[c] == b.sessions[c].(rooms := v.sessions[c].rooms)
    requires Orderly(v, l, false)
    ensures Orderly(b, l, false)
  {
    forall m, r ensures SharerIn(v, m, r) <==> SharerIn(b, m, r) {
      SharersSame(b, v, m, r);
      SharersSame(v, b, m, r);
    }
    match l
    case Receive(d, Join(r, password)) => assert Admitted(v, d, r, password) == Admitted(b, d, r, password);
    case Receive(d, Leave(r)) =>
    case Close(d, _) => assert Sender(v, d) == Sender(b, d);
    case Evict(m, _) =>
    case _ =>
  }

  lemma SharersSame(b: World, v: World, m: NodeId, r: RoomId)
    requires v.rooms == b.rooms && v.clients == b.clients
    ensures SharerIn(v, m, r) ==> SharerIn(b, m, r)
  {
    if SharerIn(v, m, r) {
      var k :| k != m && SameConnection(v, m, k) && InRoom(v, k, r);
      assert SameConnection(b, m, k) && InRoom(b, k, r);
    }
  }

  /** The copies agree but for one room in the set of a client that is not in its members. */
  ghost predicate PartedAt(w: World, n: NodeId, q: RoomId) {
    && n in w.clients.entries && q in RoomsOf(w, n) && Alone(w, n)
    && forall m, x :: InRoom(w, m, x) <==> m in w.clients.entries && x in RoomsOf(w, m) && !(m == n && x == q)
  }

  ghost predicate MembersSame(v: World, u: World, q: RoomId) {
    forall m :: InRoom(u, m, q) <==> InRoom(v, m, q)
  }

  /**
   * A step of somebody else during an eviction. The eviction stops with an exception exactly if the step lets
   * somebody into the room being told or out of it: then the client stays registered with that room in its set,
   * though it is no member any more. Otherwise the eviction ends and the two copies agree.
   */
  lemma OtherHandler(w: World, c: ConnId, n: NodeId, done: seq<RoomId>, q: RoomId, todo: seq<RoomId>, l: Label)
    requires Evicting(w, c, n, done, q, todo)
    requires var v := Midway(w, n, done, q); ByAnother(v, l, n, c) && Possible(v, l) && Orderly(v, l, false)
    ensures var v := Midway(w, n, done, q);
            var end := Resumed(v, Next(v, l), n, q, todo);
            && (end.raised <==> !MembersSame(v, Next(v, l), q))
            && (end.raised ==> PartedAt(end.w, n, q))
            && (!end.raised ==> n !in end.w.clients.entries && Agree(end.w))
  {
    var b, v := ExpelAll(w, n, done + [q]), Midway(w, n, done, q);
    MidwayIs(w, c, n, done, q, todo);
    GuardsSame(b, c, n, q, Elements(todo), l);
    StepCommutes(b, c, n, q, Elements(todo), l);
    StepExactly(b, l, false);
    EvictingAlone(w, c, n, done, q, todo);
    SizeExactly(v, l, q);
    OneRoomMore(Next(b, l), c, n, q, todo);
    if Size(Next(v, l), q) == Size(v, q) {
      ResumedAlone(v, Next(v, l), n, q, todo);
    }
  }

  lemma OneRoomMore(b: World, c: ConnId, n: NodeId, q: RoomId, todo: seq<RoomId>)
    requires Agree(b) && Settled(b, c, n, Elements(todo)) && q !in todo
    ensures var u := WithRoom(b, c, q);
            PartedAt(u, n, q) && OthersAgree(u, n) && forall x :: InRoom(u, n, x) <==> x in todo
  {
    var u := WithRoom(b, c, q);
    forall m | m != n ensures RoomsOf(u, m) == RoomsOf(b, m) && !SameConnection(u, n, m) {
      assert !SameConnection(b, n, m);
    }
    assert forall m, x :: InRoom(u, m, x) <==> InRoom(b, m, x);
    assert RoomsOf(b, n) == Elements(todo) && RoomsOf(u, n) == Elements(todo) + {q};
  }

  /** One step never lets one in and another out, so it keeps the size of a room exactly if it keeps its members. */
  lemma SizeExactly(v: World, l: Label, q: RoomId)
    requires Possible(v, l)
    ensures Size(Next(v, l), q) == Size(v, q) <==> MembersSame(v, Next(v, l), q)
  {
    var u := Next(v, l);
    if l.Receive? && l.request.Join? {
      if Sender(v, l.conn).Some? {
        JoinedEffect(v, l.conn, Sender(v, l.conn).value, l.request.room, l.request.password);
      }
      assert Inside(v, q) <= Inside(u, q);
      SameSize(Inside(v, q), Inside(u, q));
    } else {
      NobodyEnters(v, l, q);
      SameSize(Inside(u, q), Inside(v, q));
    }
  }

  function Inside(w: World, q: RoomId): (ns: set<NodeId>)
    ensures |ns| == Size(w, q) && forall m :: m in ns <==> InRoom(w, m, q)
  {
    if q in w.rooms.entries then
      assert |w.rooms.entries[q].members.entries.Keys| == |w.rooms.entries[q].members.entries|;
      w.rooms.entries[q].members.entries.Keys
    else {}
  }

  lemma SameSize(a: set<NodeId>, b: set<NodeId>)
    requires a <= b
    ensures |a| == |b| <==> a == b
  {
    assert b == a + (b - a);
  }

  lemma NobodyEnters(v: World, l: Label, q: RoomId)
    requires Possible(v, l) && !(l.Receive? && l.request.Join?)
    ensures forall m :: InRoom(Next(v, l), m, q) ==> InRoom(v, m, q)
  {
    match l
    case Receive(c, Leave(r)) =>
      if Sender(v, c).Some? {
        ExpelEffect(v, Sender(v, c).value, r);
      }
    case Close(c, order) =>
      if v.sessions[c].open && v.sessions[c].nodeId.Some? {
        ExpelAllEffect(v, v.sessions[c].nodeId.value, order);
      }
    case Evict(n, order) => ExpelAllEffect(v, n, order);
    case _ =>
  }

  /** The next attempt to evict a client that an exception left behind repairs the tables. */
  lemma RetryRepairs(w: World, n: NodeId, q: RoomId, order: seq<RoomId>)
    requires PartedAt(w, n, q) && Enumerates(order, RoomsOf(w, n))
    ensures n !in Dropped(w, n, order).clients.entries && Agree(Dropped(w, n, order))
  {
    var v := Dropped(w, n, order);
    DropEffect(w, n, order);
    forall m, x ensures InRoom(v, m, x) <==> m in v.clients.entries && x in RoomsOf(v, m) {
      assert m != n ==> !SameConnection(w, n, m);
    }
  }

  // ---------------------------------------------------------------- a run with such a pause

  function Fresh(n: NodeId, since: real, rooms: set<RoomId>): Session {
    Session(Some(n), "u", "java", rooms, since, true)
  }

  /** A connection is accepted and authenticates. */
  lemma NewClient(ls: seq<Label>, c: ConnId, n: NodeId, now: real) returns (more: seq<Label>)
    requires PossibleRun(Initial("s"), ls)
    requires var w := Run(Initial("s"), ls).w; c !in w.sessions && n !in w.clients.entries
    ensures PossibleRun(Initial("s"), more)
    ensures var v, w := Run(Initial("s"), ls).w, Run(Initial("s"), more).w;
            && w.rooms == v.rooms && w.clients.entries == v.clients.entries[n := c]
            && w.sessions == v.sessions[c := Fresh(n, now, {})]
  {
    var l, m := Accept(c, now), Receive(c, Auth(n, "u", "java"));
    RunSnoc(Initial("s"), ls, l);
    RunSnoc(Initial("s"), ls + [l], m);
    more := ls + [l] + [m];
    var v := Run(Initial("s"), ls).w;
    assert v.sessions[c := Session(None, "Unknown", "java", {}, now, true)][c := Fresh(n, now, {})] ==
           v.sessions[c := Fresh(n, now, {})];
  }

  /** Clients "a", "b" and "c", the first 20 seconds older than the others. */
  lemma ThreeClients() returns (ls: seq<Label>)
    ensures PossibleRun(Initial("s"), ls)
    ensures var w := Run(Initial("s"), ls).w;
            && w.rooms == Empty() && w.clients.entries == map["a" := 0, "b" := 1, "c" := 2]
            && w.sessions == map[0 := Fresh("a", 0.0, {}), 1 := Fresh("b", 20.0, {}), 2 := Fresh("c", 20.0, {})]
  {
    assert "a"[0] != "b"[0] && "a"[0] != "c"[0] && "b"[0] != "c"[0];
    ls := NewClient([], 0, "a", 0.0);
    ls := NewClient(ls, 1, "b", 20.0);
    ls := NewClient(ls, 2, "c", 20.0);
  }

  /** "p" is the only room and these are its members; "b" has these rooms. */
  ghost predicate InsideP(w: World, members: set<NodeId>, rooms: set<RoomId>) {
    && w.rooms.entries.Keys == {"p"} && w.clients.entries == map["a" := 0, "b" := 1, "c" := 2]
    && w.sessions == map[0 := Fresh("a", 0.0, {"p"}), 1 := Fresh("b", 20.0, rooms), 2 := Fresh("c", 20.0, {})]
    && var room := w.rooms.entries["p"];
       room.password == None && room.banned == {} && room.maxMembers == 100 && room.members.entries.Keys == members
  }

  ghost predicate TwoInside(w: World) {
    InsideP(w, {"a", "b"}, {"p"})
  }

  lemma TwoMembers() returns (ls: seq<Label>)
    ensures PossibleRun(Initial("s"), ls) && TwoInside(Run(Initial("s"), ls).w)
  {
    ls := ThreeClients();
    var w := Run(Initial("s"), ls).w;
    var l, m := Receive(0, Join("p", None)), Receive(1, Join("p", None));
    RunSnoc(Initial("s"), ls, l);
    RunSnoc(Initial("s"), ls + [l], m);
    ls := ls + [l] + [m];
    FirstJoins(w);
    SecondJoins(Joined(w, 0, "p", None));
  }

  lemma FirstJoins(w: World)
    requires w.rooms == Empty() && w.clients.entries == map["a" := 0, "b" := 1, "c" := 2]
    requires w.sessions == map[0 := Fresh("a", 0.0, {}), 1 := Fresh("b", 20.0, {}), 2 := Fresh("c", 20.0, {})]
    ensures InsideP(Joined(w, 0, "p", None), {"a"}, {})
  {
    var v := OpenRoom(w, "a", "p", None);
    assert v.rooms.entries["p"] == Room("p", PUBLIC, None, 100, "a", Empty(), {});
    assert Joined(w, 0, "p", None) == Admit(v, 0, "a", "p");
  }

  lemma SecondJoins(w: World)
    requires InsideP(w, {"a"}, {})
    ensures TwoInside(Joined(w, 1, "p", None))
  {
    assert |w.rooms.entries["p"].members.entries.Keys| == 1;
  }

  lemma TwoInsideEvicting(w: World)
    requires TwoInside(w)
    ensures Evicting(w, 0, "a", [], "p", []) && Sender(w, 0) == Some("a")
    ensures Stale(w, "a", 31.0) && !Stale(w, "b", 31.0) && InRoom(w, "b", "p")
  {
    assert "a"[0] != "b"[0] && "a"[0] != "c"[0] && "b"[0] != "c"[0];
    assert [] + ["p"] + [] == ["p"];
    assert RoomsOf(w, "a") == {"p"} == RoomsOf(w, "b");
  }

  lemma AdmittedMidway(w: World)
    requires TwoInside(w)
    ensures var v := Midway(w, "a", [], "p");
            && Admitted(v, 0, "q", None) && Admitted(v, 0, "p", None) && Admitted(v, 2, "p", None)
            && Sender(v, 2) == Some("c") && !InRoom(v, "c", "p")
            && SafeJoin(v, 2, "c", "p", false)
  {
    assert "a"[0] != "b"[0] && "a"[0] != "c"[0] && "b"[0] != "c"[0] && "p"[0] != "q"[0];
    assert ExpelAll(w, "a", []) == w;
    var v := Midway(w, "a", [], "p");
    assert v == TakeOut(w, "a", "p");
    assert v.rooms.entries["p"].members.entries.Keys == {"b"};
    assert |v.rooms.entries["p"].members.entries.Keys| == 1;
  }

  /** The eviction of "a", in which connection c joins r while "b" is told. */
  function JoinMeanwhile(w: World, c: ConnId, r: RoomId): End {
    var v := Midway(w, "a", [], "p");
    Resumed(v, Joined(v, c, r, None), "a", "p", [])
  }

  lemma OwnJoins(w: World)
    requires TwoInside(w)
    ensures var end := JoinMeanwhile(w, 0, "q");
            !end.raised && InRoom(end.w, "a", "q") && "a" !in end.w.clients.entries
    ensures var end := JoinMeanwhile(w, 0, "p");
            end.raised && InRoom(end.w, "a", "p") && "a" in end.w.clients.entries && Agree(end.w)
  {
    assert "p"[0] != "q"[0];
    TwoInsideEvicting(w);
    AdmittedMidway(w);
    OwnJoin(w, 0, "a", [], "p", [], "q", None);
    OwnJoin(w, 0, "a", [], "p", [], "p", None);
  }

  lemma OtherJoins(w: World)
    requires TwoInside(w)
    ensures var end := JoinMeanwhile(w, 2, "p"); end.raised && PartedAt(end.w, "a", "p")
  {
    assert "a"[0] != "c"[0];
    var v, l := Midway(w, "a", [], "p"), Receive(2, Join("p", None));
    TwoInsideEvicting(w);
    AdmittedMidway(w);
    OtherHandler(w, 0, "a", [], "p", [], l);
    JoinedEffect(v, 2, "c", "p", None);
    assert InRoom(Next(v, l), "c", "p");
  }

  /** Whatever the notice's number and text are, as long as they fit. */
  ghost predicate AlwaysPauses(v: World, q: RoomId, clock: int) {
    forall sequence: nat, text: bytes :: sequence < 0x1_0000_0000 && |text| < 0x1_0000_0000 ==>
      Pauses(v, q, sequence, text, clock)
  }

  lemma PausesThere(w: World)
    requires TwoInside(w)
    ensures AlwaysPauses(Midway(w, "a", [], "p"), "p", 31_000)
  {
    var v := Midway(w, "a", [], "p");
    MidwayEffect(w, "a", [], "p");
    assert "a"[0] != "b"[0];
    assert "b" in v.clients.entries && InRoom(v, "b", "p");
    forall sequence: nat, text: bytes | sequence < 0x1_0000_0000 && |text| < 0x1_0000_0000
      ensures Pauses(v, "p", sequence, text, 31_000)
    {
      assert Written(sequence, text, 31_000);
    }
  }

  /**
   * A reachable server whose heartbeat, 31 seconds after "a" connected, waits while it tells "b" that "a" left "p".
   * If "a" joins a new room then, it stays in it without being a client; if "a" joins "p", it stays a client; if "c"
   * joins "p", "a" stays registered with "p" in its set but outside the room.
   */
  lemma JoinSlipsIn() returns (ls: seq<Label>, w: World)
    ensures PossibleRun(Initial("s"), ls) && w == Run(Initial("s"), ls).w
    ensures Evicting(w, 0, "a", [], "p", []) && Stale(w, "a", 31.0) && !Stale(w, "b", 31.0)
    ensures AlwaysPauses(Midway(w, "a", [], "p"), "p", 31_000)
    ensures var end := JoinMeanwhile(w, 0, "q");
            !end.raised && InRoom(end.w, "a", "q") && "a" !in end.w.clients.entries
    ensures var end := JoinMeanwhile(w, 0, "p");
            end.raised && InRoom(end.w, "a", "p") && "a" in end.w.clients.entries && Agree(end.w)
    ensures var end := JoinMeanwhile(w, 2, "p"); end.raised && PartedAt(end.w, "a", "p")
  {
    ls := TwoMembers();
    w := Run(Initial("s"), ls).w;
    TwoInsideEvicting(w);
    OwnJoins(w);
    OtherJoins(w);
    PausesThere(w);
  }
}
