/** The signaling mailbox: messages wait per target until the target's whole queue is collected at once. */
module Signaling {
  import opened Bytes

  /** The fields the mailbox reads or writes, and the rest of the message as it came. */
  datatype Message = Message(nodeId: Option<string>, target: Option<string>, timestamp: Option<string>, body: string)

  /** Python truth of an optional string. */
  predicate Given(s: Option<string>) {
    s.Some? && s.value != ""
  }

  /** What a message handler is called with. */
  datatype Notice = Notice(peer: string, message: Message)

  /** `heard` is what the message handlers were told so far; a handler that raises is logged and passed over. */
  datatype Mailbox = Mailbox(pending: map<string, seq<Message>>, connected: set<string>, heard: seq<Notice>)

  const EMPTY := Mailbox(map[], {}, [])

  function PendingOf(b: Mailbox, target: string): seq<Message> {
    if target in b.pending then b.pending[target] else []
  }

  datatype Event =
    | Incoming(message: Message)
    | Send(to: string, message: Message, now: string)
    | Collect(from: string)

  function Forward(b: Mailbox, target: string, m: Message): Mailbox {
    b.(pending := b.pending[target := PendingOf(b, target) + [m]])
  }

  /** A message without sender is ignored; one without target only marks its sender as connected. */
  function Processed(b: Mailbox, m: Message): Mailbox {
    if !Given(m.nodeId) then b
    else
      var c := b.(connected := b.connected + {m.nodeId.value}, heard := b.heard + [Notice(m.nodeId.value, m)]);
      if Given(m.target) then Forward(c, m.target.value, m) else c
  }

  function Stamped(self: string, target: string, m: Message, now: string): Message {
    m.(nodeId := Some(self), target := Some(target), timestamp := Some(now))
  }

  function Step(self: string, b: Mailbox, e: Event): Mailbox {
    match e
    case Incoming(m) => Processed(b, m)
    case Send(to, m, now) => Forward(b, to, Stamped(self, to, m, now))
    case Collect(from) => b.(pending := b.pending - {from})
  }

  class WebRTCSignaling {
    const nodeId: string
    var pendingMessages: map<string, seq<Message>>
    var connectedNodes: set<string>

    /** The calls of the message handlers. */
    ghost var heard: seq<Notice>

    constructor (nodeId: string)
      ensures this.nodeId == nodeId && View() == EMPTY
    {
      this.nodeId := nodeId;
      pendingMessages, connectedNodes, heard := map[], {}, [];
    }

    ghost function View(): Mailbox
      reads this
    {
      Mailbox(pendingMessages, connectedNodes, heard)
    }

    method ProcessMessage(m: Message)
      modifies this
      ensures View() == Step(nodeId, old(View()), Incoming(m))
    {
      if !Given(m.nodeId) {
        return;
      }
      connectedNodes := connectedNodes + {m.nodeId.value};
      if Given(m.target) {
        ForwardMessage(m.target.value, m);
      }
      heard := heard + [Notice(m.nodeId.value, m)];
    }

    method ForwardMessage(target: string, m: Message)
      modifies this`pendingMessages
      ensures View() == Forward(old(View()), target, m)
    {
      if target !in pendingMessages {
        pendingMessages := pendingMessages[target := []];
      }
      pendingMessages := pendingMessages[target := pendingMessages[target] + [m]];
    }

    method SendMessage(target: string, m: Message, now: string)
      modifies this`pendingMessages
      ensures View() == Step(nodeId, old(View()), Send(target, m, now))
    {
      var stamped := m.(nodeId := Some(nodeId), target := Some(target), timestamp := Some(now));
      ForwardMessage(target, stamped);
    }

    method GetPendingMessages(target: string) returns (messages: seq<Message>)
      modifies this`pendingMessages
      ensures messages == PendingOf(old(View()), target)
      ensures View() == Step(nodeId, old(View()), Collect(target))
    {
      messages := if target in pendingMessages then pendingMessages[target] else [];
      pendingMessages := pendingMessages - {target};
    }
  }

  // ---------------------------------------------------------------- over whole runs

  function Run(self: string, es: seq<Event>): Mailbox {
    if es == [] then EMPTY else Step(self, Run(self, es[..|es| - 1]), es[|es| - 1])
  }

  /** What the events by themselves put on the way to `target`. */
  function ForwardedTo(self: string, es: seq<Event>, target: string): seq<Message> {
    if es == [] then []
    else
      var before := ForwardedTo(self, es[..|es| - 1], target);
      match es[|es| - 1]
      case Incoming(m) =>
        if Given(m.nodeId) && Given(m.target) && m.target.value == target then before + [m] else before
      case Send(to, m, now) =>
        if to == target then before + [Message(Some(self), Some(to), Some(now), m.body)] else before
      case Collect(_) => before
  }

  /** What `target` was handed over the run, all its collections joined. */
  function DeliveredTo(self: string, es: seq<Event>, target: string): seq<Message> {
    if es == [] then []
    else
      var init := es[..|es| - 1];
      DeliveredTo(self, init, target) +
      if es[|es| - 1] == Collect(target) then PendingOf(Run(self, init), target) else []
  }

  /**
   * However messages, sends and collections interleave: what a target was handed and what still waits for it
   * is what was forwarded to it, in order, nothing lost, doubled or given to another.
   */
  lemma {:induction false} Conservation(self: string, es: seq<Event>, target: string)
    ensures DeliveredTo(self, es, target) + PendingOf(Run(self, es), target) == ForwardedTo(self, es, target)
  {
    if es != [] {
      var init, last := es[..|es| - 1], es[|es| - 1];
      var b := Run(self, init);
      Conservation(self, init, target);
      var delivered, pending := DeliveredTo(self, init, target), PendingOf(b, target);
      match last
      case Incoming(m) =>
        if Given(m.nodeId) && Given(m.target) && m.target.value == target {
          assert delivered + (pending + [m]) == delivered + pending + [m];
        }
      case Send(to, m, now) =>
        if to == target {
          var stamped := Stamped(self, to, m, now);
          assert delivered + (pending + [stamped]) == delivered + pending + [stamped];
        }
      case Collect(from) =>
        assert from == target ==> last == Collect(target);
    }
  }

  /** A node counts as connected exactly when some message named it as sender. */
  lemma {:induction false} ConnectedExactly(self: string, es: seq<Event>, n: string)
    ensures n in Run(self, es).connected <==>
            n != "" && exists e :: e in es && e.Incoming? && e.message.nodeId == Some(n)
  {
    if es != [] {
      ConnectedExactly(self, es[..|es| - 1], n);
      assert es == es[..|es| - 1] + [es[|es| - 1]];
    }
  }

  /** The incoming messages with a sender, each with that sender. */
  function Attributed(es: seq<Event>): seq<Notice> {
    if es == [] then []
    else
      var e, before := es[|es| - 1], Attributed(es[..|es| - 1]);
      if e.Incoming? && Given(e.message.nodeId) then before + [Notice(e.message.nodeId.value, e.message)] else before
  }

  /**
   * The handlers hear every incoming message with a sender once, in order, targeted or not, and nothing this node
   * sends.
   */
  lemma {:induction false} HeardExactly(self: string, es: seq<Event>)
    ensures Run(self, es).heard == Attributed(es)
    ensures forall n :: n in Run(self, es).connected <==>
              exists i :: 0 <= i < |Attributed(es)| && Attributed(es)[i].peer == n
  {
    if es != [] {
      HeardExactly(self, es[..|es| - 1]);
      var before, now := Attributed(es[..|es| - 1]), Attributed(es);
      assert forall i :: 0 <= i < |before| ==> now[i] == before[i];
      assert now != before ==> now[|before|].peer == es[|es| - 1].message.nodeId.value;
    }
  }
}
