/** Hole punching: port prediction, the bounded attempt machine and the puncher's bookkeeping. */
module HolePunch {
  import opened Bytes
  import opened FastLinkPacket
  import opened PyDict

  datatype Isp = UNKNOWN | CHINA_TELECOM | CHINA_UNICOM | CHINA_MOBILE | OTHER

  /** An ISP without parameters of its own has those of UNKNOWN. */
  function PortIncrement(isp: Isp): (inc: nat)
    ensures 32 <= inc <= 64
  {
    match isp
    case CHINA_TELECOM => 48
    case CHINA_UNICOM => 64
    case CHINA_MOBILE => 32
    case UNKNOWN => 50
    case OTHER => 50
  }

  const MAX_ATTEMPTS: nat := 100

  type word = x: nat | x < 0x1_0000_0000

  /** The leading four bytes of the HMAC of each index, as a number; which function it is does not matter here. */
  type Hash = nat -> word

  /** The predicted position before it is folded into the port range. */
  function Position(base: nat, inc: nat, hash: Hash, i: nat): nat
    requires inc > 0
  {
    base + hash(i) % inc + i * inc
  }

  function PortOf(position: nat): nat {
    position % 65535 + 1024
  }

  function Ports(base: nat, inc: nat, hash: Hash, n: nat): (ports: seq<nat>)
    requires inc > 0
    ensures |ports| == n
  {
    if n == 0 then [] else Ports(base, inc, hash, n - 1) + [PortOf(Position(base, inc, hash, n - 1))]
  }

  lemma {:induction false} PortAt(base: nat, inc: nat, hash: Hash, n: nat, i: nat)
    requires inc > 0 && i < n
    ensures Ports(base, inc, hash, n)[i] == PortOf(Position(base, inc, hash, i))
  {
    if i < n - 1 {
      PortAt(base, inc, hash, n - 1, i);
    }
  }

  // ---------------------------------------------------------------- what is predicted

  lemma MulMono(a: nat, b: nat, inc: nat)
    requires a <= b
    ensures a * inc <= b * inc
  {
  }

  /** Positions grow, by at least 1 and by less than `max * inc`. */
  lemma PositionGap(base: nat, inc: nat, hash: Hash, max: nat, i: nat, j: nat)
    requires inc > 0 && i < j < max
    ensures 0 < Position(base, inc, hash, j) - Position(base, inc, hash, i) < max * inc
  {
    MulMono(i + 1, j, inc);
    MulMono(j + 1, max, inc);
    assert (i + 1) * inc == i * inc + inc && (j + 1) * inc == j * inc + inc;
    assert 0 <= i * inc;
  }

  /** Two different positions that fold to the same port are at least 65535 apart. */
  lemma SamePort(p: nat, q: nat)
    requires p < q && PortOf(p) == PortOf(q)
    ensures q - p >= 65535
  {
    assert p == p / 65535 * 65535 + p % 65535 && q == q / 65535 * 65535 + q % 65535;
  }

  lemma DistinctPorts(base: nat, inc: nat, hash: Hash, max: nat)
    requires inc > 0 && (max <= 1 || max * inc <= 65535)
    ensures Distinct(Ports(base, inc, hash, max))
  {
    forall i, j | 0 <= i < j < max ensures Ports(base, inc, hash, max)[i] != Ports(base, inc, hash, max)[j] {
      PositionGap(base, inc, hash, max, i, j);
      PortAt(base, inc, hash, max, i);
      PortAt(base, inc, hash, max, j);
      if PortOf(Position(base, inc, hash, i)) == PortOf(Position(base, inc, hash, j)) {
        SamePort(Position(base, inc, hash, i), Position(base, inc, hash, j));
      }
    }
  }

  /** A hash that moves prediction number `k` by `offset` and no other. */
  function Aim(k: nat, offset: word): Hash {
    i => if i == k then offset else 0
  }

  lemma Quotient(a: nat, inc: nat) returns (k: nat, rest: nat)
    requires inc > 0
    ensures a == k * inc + rest && rest < inc
  {
    k, rest := a / inc, a % inc;
  }

  lemma SmallRemainder(a: nat, inc: nat)
    requires a < inc
    ensures a % inc == a
  {
  }

  lemma AimHits(base: nat, inc: nat, k: nat, offset: word)
    requires offset < inc
    ensures Position(base, inc, Aim(k, offset), k) == base + (k * inc + offset)
    ensures k > 0 ==> Position(base, inc, Aim(k, offset), 0) == base
  {
    SmallRemainder(offset, inc);
    SmallRemainder(0, inc);
    var zero := 0 * inc;
    assert zero == 0;
  }

  /** A number of whole increments that fit below `max` increments is below `max`. */
  lemma FewerSteps(k: nat, max: nat, inc: nat)
    requires k * inc < max * inc
    ensures k < max
  {
    if k >= max {
      MulMono(max, k, inc);
      assert false;
    }
  }

  lemma FoldAgain(p: nat, turns: nat)
    ensures PortOf(p + turns * 65535) == PortOf(p)
  {
    assert p == p / 65535 * 65535 + p % 65535;
    assert p + turns * 65535 == (p / 65535 + turns) * 65535 + p % 65535;
  }

  lemma CollisionAt(base: nat, inc: nat, hash: Hash, max: nat, i: nat, j: nat, turns: nat)
    requires inc > 0 && i < j < max && Position(base, inc, hash, j) == Position(base, inc, hash, i) + turns * 65535
    ensures !Distinct(Ports(base, inc, hash, max))
  {
    FoldAgain(Position(base, inc, hash, i), turns);
    PortAt(base, inc, hash, max, i);
    PortAt(base, inc, hash, max, j);
  }

  lemma Collision(base: nat, inc: nat, max: nat) returns (hash: Hash)
    requires inc > 0 && max > 1 && max * inc > 65535
    ensures !Distinct(Ports(base, inc, hash, max))
  {
    if inc <= 65535 {
      var k, rest := Quotient(65535, inc);
      hash := Aim(k, rest);
      AimHits(base, inc, k, rest);
      FewerSteps(k, max, inc);
      CollisionAt(base, inc, hash, max, 0, k, 1);
    } else {
      var turns, rest := Quotient(inc, 65535);
      hash := Aim(0, rest);
      AimHits(base, inc, 0, rest);
      SmallRemainder(0, inc);
      assert Position(base, inc, hash, 1) == base + inc;
      CollisionAt(base, inc, hash, max, 0, 1, turns);
    }
  }

  /** The predicted ports differ pairwise under every hash exactly when the attempts cover at most 65535 positions. */
  lemma DistinctExactly(base: nat, inc: nat, max: nat)
    requires inc > 0
    ensures (forall hash: Hash :: Distinct(Ports(base, inc, hash, max))) <==> max <= 1 || max * inc <= 65535
  {
    if max <= 1 || max * inc <= 65535 {
      forall hash: Hash ensures Distinct(Ports(base, inc, hash, max)) {
        DistinctPorts(base, inc, hash, max);
      }
    } else {
      var hash := Collision(base, inc, max);
    }
  }

  /** Every port lies between 1024 and 66558, and both ends are predicted for some port and some hash. */
  lemma PortRange(base: nat, inc: nat, hash: Hash, max: nat)
    requires inc > 0
    ensures forall port :: port in Ports(base, inc, hash, max) ==> 1024 <= port <= 66558
    ensures max > 0 ==> 1024 in Ports(65535, inc, Aim(0, 0), max) && 66558 in Ports(65534, inc, Aim(0, 0), max)
  {
    forall i | 0 <= i < max ensures 1024 <= Ports(base, inc, hash, max)[i] <= 66558 {
      PortAt(base, inc, hash, max, i);
    }
    if max > 0 {
      AimHits(65535, inc, 0, 0);
      AimHits(65534, inc, 0, 0);
      PortAt(65535, inc, Aim(0, 0), max, 0);
      PortAt(65534, inc, Aim(0, 0), max, 0);
      assert PortOf(65535) == 1024 && PortOf(65534) == 66558;
    }
  }

  ghost predicate Usable(ports: seq<nat>) {
    forall i :: 0 <= i < |ports| ==> ports[i] <= 65535
  }

  /** Folding ignores whole turns of 65535, so only the folded base counts. */
  lemma FoldBase(base: nat, low: nat)
    requires base % 65535 + low < 65535
    ensures (base + low) % 65535 == base % 65535 + low
  {
    var k, b := base / 65535, base % 65535;
    assert base + low == 65535 * k + (b + low);
  }

  lemma UsablePorts(base: nat, inc: nat, hash: Hash, max: nat)
    requires inc > 0 && base % 65535 + max * inc <= 64512
    ensures Usable(Ports(base, inc, hash, max))
  {
    forall i | 0 <= i < max ensures Ports(base, inc, hash, max)[i] <= 65535 {
      PortAt(base, inc, hash, max, i);
      MulMono(i + 1, max, inc);
      assert (i + 1) * inc == i * inc + inc;
      var low: nat := hash(i) % inc + i * inc;
      FoldBase(base, low);
    }
  }

  lemma UnusablePort(base: nat, inc: nat, max: nat) returns (hash: Hash)
    requires inc > 0 && max > 0 && base % 65535 + max * inc > 64512
    ensures !Usable(Ports(base, inc, hash, max))
  {
    var b := base % 65535;
    var target := if b <= 64512 then 64512 - b else 0;
    var k, rest := Quotient(target, inc);
    MulMono(1, max, inc);
    FewerSteps(k, max, inc);
    hash := Aim(k, rest);
    AimHits(base, inc, k, rest);
    FoldBase(base, target);
    PortAt(base, inc, hash, max, k);
  }

  /**
   * All predicted ports are real ports under every hash exactly when the attempts stay within 64512 of
   * zero, counted from the folded base; SUMMARY.md documents the modulus 64511, under which they always would be.
   */
  lemma UsableExactly(base: nat, inc: nat, max: nat)
    requires inc > 0 && max > 0
    ensures (forall hash: Hash :: Usable(Ports(base, inc, hash, max))) <==> base % 65535 + max * inc <= 64512
    ensures forall position: nat :: 1024 <= position % 64511 + 1024 <= 65535
  {
    if base % 65535 + max * inc <= 64512 {
      forall hash: Hash ensures Usable(Ports(base, inc, hash, max)) {
        UsablePorts(base, inc, hash, max);
      }
    } else {
      var hash := UnusablePort(base, inc, max);
    }
  }

  /** The increments of the four ISPs that have parameters, and of any other. */
  lemma IncrementsAre(isp: Isp)
    ensures PortIncrement(isp) == match isp case CHINA_TELECOM => 48 case CHINA_UNICOM => 64 case CHINA_MOBILE => 32
                                            case UNKNOWN => 50 case OTHER => PortIncrement(UNKNOWN)
    ensures MAX_ATTEMPTS == 100
  {
  }

  /** The i-th prediction, from 0, is the base moved i increments and part of another, folded into 1024 to 66558. */
  lemma PredictionAt(base: nat, inc: nat, hash: Hash, max: nat, i: nat)
    requires inc > 0 && i < max
    ensures Ports(base, inc, hash, max)[i] == (base + i * inc + hash(i) % inc) % 65535 + 1024
  {
    PortAt(base, inc, hash, max, i);
  }

  /** With the repository's own increments and its 100 attempts no port is ever tried twice. */
  lemma RepositoryPortsDistinct(isp: Isp, base: nat, hash: Hash)
    ensures Distinct(Ports(base, PortIncrement(isp), hash, MAX_ATTEMPTS))
  {
    DistinctPorts(base, PortIncrement(isp), hash, MAX_ATTEMPTS);
  }

  // ---------------------------------------------------------------- the attempt machine

  class NodeInfo {
    /** Tells records apart in specifications. */
    ghost const id: nat
    const nodeId: string
    const internalIp: string
    const internalPort: nat
    var externalIp: string
    var externalPort: nat
    var lastSeen: real
    var latencyMs: int
    var connected: bool

    constructor (nodeId: string, externalIp: string, externalPort: nat, internalIp: string, internalPort: nat,
                 now: real, ghost id: nat)
      ensures this.id == id && this.nodeId == nodeId && !connected && lastSeen == now && latencyMs == 0
      ensures this.externalIp == externalIp && this.externalPort == externalPort
      ensures this.internalIp == internalIp && this.internalPort == internalPort
    {
      this.id, this.nodeId, this.internalIp, this.internalPort := id, nodeId, internalIp, internalPort;
      this.externalIp, this.externalPort := externalIp, externalPort;
      lastSeen, latencyMs, connected := now, 0, false;
    }
  }

  class PunchAttempt {
    const punchId: string
    const target: NodeInfo
    const increment: nat
    const hash: Hash
    const maxAttempts: nat
    var attempts: nat
    var success: bool

    constructor (punchId: string, target: NodeInfo, isp: Isp, hash: Hash)
      ensures Valid() && attempts == 0 && !success
      ensures this.punchId == punchId && this.target == target && increment == PortIncrement(isp)
      ensures maxAttempts == MAX_ATTEMPTS
    {
      this.punchId, this.target, increment, this.hash := punchId, target, PortIncrement(isp), hash;
      attempts, maxAttempts, success := 0, MAX_ATTEMPTS, false;
    }

    ghost predicate Valid()
      reads this
    {
      increment > 0 && attempts <= maxAttempts
    }

    /** What would be predicted for the target's present port. */
    ghost function Plan(): seq<nat>
      requires Valid()
      reads this, target
    {
      Ports(target.externalPort, increment, hash, maxAttempts)
    }

    method PredictPorts() returns (predicted: seq<nat>)
      requires Valid()
      ensures predicted == Plan()
    {
      predicted := [];
      for i := 0 to maxAttempts
        invariant predicted == Ports(target.externalPort, increment, hash, i)
      {
        var offset := hash(i) % increment;
        predicted := predicted + [(target.externalPort + offset + i * increment) % 65535 + 1024];
      }
    }

    /** The next element of the plan, or None for good once all have been given out. */
    method GetNextPort() returns (port: Option<nat>)
      requires Valid()
      modifies `attempts
      ensures Valid()
      ensures if old(attempts) < maxAttempts
              then port == Some(Plan()[old(attempts)]) && attempts == old(attempts) + 1
              else port == None && attempts == old(attempts)
    {
      if attempts >= maxAttempts {
        return None;
      }
      var ports := PredictPorts();
      port := Some(ports[attempts]);
      attempts := attempts + 1;
    }
  }

  // ---------------------------------------------------------------- the puncher

  /** The header of the packet for an attempt number, before `encode` stamps it. */
  function PunchHeader(number: nat): Header {
    Header(0x0200, 0x05, number, 0, 0, 0)
  }

  /** The packet of an attempt: version, type 0x05, the attempt's number and its text. */
  lemma PunchPacket(number: nat, text: bytes, clock: int)
    requires InU32(number) && InU32(clock) && |text| < 0x1_0000_0000
    ensures var w := Wire(PunchHeader(number), text, clock);
            && w.Some? && |w.value| == 24 + |text| && BigEndian(w.value[4..6]) == 0x0200
            && BigEndian(w.value[6..8]) == 0x05 && BigEndian(w.value[8..12]) == number && w.value[24..] == text
  {
    WireLayout(PunchHeader(number), text, clock);
  }

  /** A response to a punch, with the address it came from. */
  datatype Reply = Reply(ip: string, port: nat)

  class HolePuncher {
    var activePunches: map<string, PunchAttempt>
    var punchSuccesses: nat

    /** The punch ids whose success the callbacks were told of, in order. */
    ghost var notified: seq<string>

    constructor ()
      ensures Valid() && activePunches == map[] && punchSuccesses == 0
    {
      activePunches, punchSuccesses, notified := map[], 0, [];
    }

    /** Every success was counted once and told once, and nothing else was. */
    ghost predicate Valid()
      reads this, activePunches.Values
    {
      && (forall id :: id in activePunches ==> activePunches[id].punchId == id && activePunches[id].Valid())
      && punchSuccesses == |notified|
      && Distinct(notified)
      && (forall id :: id in notified <==> id in activePunches && activePunches[id].success)
    }

    ghost function Successful(): set<string>
      reads this, activePunches.Values
    {
      set id | id in activePunches && activePunches[id].success
    }

    /** `id` is freshly generated. */
    method StartPunch(id: string, target: NodeInfo, isp: Isp, hash: Hash) returns (attempt: PunchAttempt)
      requires Valid() && id !in activePunches
      modifies this
      ensures Valid() && fresh(attempt) && attempt.target == target && !attempt.success && attempt.attempts == 0
      ensures activePunches == old(activePunches)[id := attempt]
      ensures punchSuccesses == old(punchSuccesses) && notified == old(notified)
    {
      attempt := new PunchAttempt(id, target, isp, hash);
      activePunches := activePunches[id := attempt];
    }

    /** The first reply to an attempt marks it, moves its target and runs the callbacks; any other does nothing. */
    method HandlePunchResponse(id: string, reply: Reply)
      requires Valid()
      modifies this`punchSuccesses, this`notified,
               if id in activePunches then {activePunches[id]} else {},
               if id in activePunches then {activePunches[id].target} else {}
      ensures Valid()
      ensures if id in activePunches && !old(activePunches[id].success)
              then
                var target := activePunches[id].target;
                && Successful() == old(Successful()) + {id} && notified == old(notified) + [id]
                && target.externalIp == reply.ip && target.externalPort == reply.port && target.connected
              else Successful() == old(Successful()) && notified == old(notified)
      ensures id in activePunches ==> activePunches[id].attempts == old(activePunches[id].attempts)
    {
      if id in activePunches && !activePunches[id].success {
        var attempt := activePunches[id];
        attempt.success := true;
        punchSuccesses := punchSuccesses + 1;
        var target := attempt.target;
        target.externalIp, target.externalPort, target.connected := reply.ip, reply.port, true;
        notified := notified + [id];
      }
    }

    /** The bytes of the packet; None is the exception of `packet.encode()`. */
    method PunchData(number: nat, text: bytes, clock: int) returns (data: Option<bytes>)
      ensures data.Some? <==> Sendable(PunchHeader(number), text, clock)
      ensures data.Some? <==> Sendable(PunchHeader(number), text, clock)
      ensures data.Some? ==>
                && |data.value| == 24 + |text| && BigEndian(data.value[6..8]) == 0x05
                && BigEndian(data.value[8..12]) == number && data.value[24..] == text
    {
      data := Wire(PunchHeader(number), text, clock);
      if data.Some? {
        PunchPacket(number, text, clock);
      }
    }

    /** One turn of the loop, with the response behind it. */
    method PunchTurn(id: string, texts: nat -> bytes, clocks: nat -> int, replies: nat -> Option<Reply>)
      returns (port: nat, raised: bool)
      requires Valid() && id in activePunches
      requires !activePunches[id].success && activePunches[id].attempts < activePunches[id].maxAttempts
      modifies this`punchSuccesses, this`notified, activePunches[id], activePunches[id].target
      ensures Valid()
      ensures var attempt := activePunches[id];
              var number := old(attempt.attempts) + 1;
              && attempt.attempts == number && port == old(attempt.Plan())[number - 1]
              && raised == !Sends(texts, clocks)(number)
              && attempt.success == (!raised && replies(number).Some?)
              && (!attempt.success ==> attempt.target.externalPort == old(attempt.target.externalPort))
    {
      var attempt := activePunches[id];
      var next := attempt.GetNextPort();
      port := next.value;
      var number := attempt.attempts;
      var data := PunchData(number, texts(number), clocks(number));
      raised := data.None?;
      if !raised && replies(number).Some? {
        HandlePunchResponse(id, replies(number).value);
      }
    }

    /**
     * `_punch_loop`: the JSON text of the k-th packet, the clock when it is encoded and the response that arrives
     * behind it, if any, are given by k. The ports sent to are the attempt's plan in order.
     */
    method PunchLoop(id: string, texts: nat -> bytes, clocks: nat -> int, replies: nat -> Option<Reply>)
      returns (sent: seq<nat>, raised: bool)
      requires Valid() && id in activePunches
      modifies this`punchSuccesses, this`notified, activePunches[id], activePunches[id].target
      ensures Valid()
      ensures var attempt := activePunches[id];
              && old(attempt.attempts) <= attempt.attempts <= attempt.maxAttempts
              && Punched(attempt.attempts, attempt.success, raised) ==
                 (if old(attempt.success) then Punched(old(attempt.attempts), true, false)
                  else Punches(old(attempt.attempts), attempt.maxAttempts, Sends(texts, clocks), replies))
              && attempt.attempts == old(attempt.attempts) + |sent| + (if raised then 1 else 0)
              && forall k :: 0 <= k < |sent| ==> sent[k] == old(attempt.Plan())[old(attempt.attempts) + k]
    {
      sent, raised := [], false;
      var attempt := activePunches[id];
      ghost var from, max, goes, plan := attempt.attempts, attempt.maxAttempts, Sends(texts, clocks), attempt.Plan();
      ghost var n, end := from, Punches(from, max, goes, replies);
      while !attempt.success && attempt.attempts < attempt.maxAttempts
        invariant Valid() && from <= n == attempt.attempts <= max
        invariant !attempt.success ==> attempt.target.externalPort == old(attempt.target.externalPort)
        invariant |sent| == n - from && forall k :: 0 <= k < |sent| ==> sent[k] == plan[from + k]
        invariant !attempt.success ==> end == Punches(n, max, goes, replies)
        invariant old(attempt.success) ==> attempt.success && n == from
        invariant attempt.success && !old(attempt.success) ==> end == Punched(n, true, false)
        decreases max - n
      {
        var port, stop := PunchTurn(id, texts, clocks, replies);
        Turn(n, max, goes, replies, attempt.success, stop);
        n := n + 1;
        if stop {
          raised := true;
          break;
        }
        sent := sent + [port];
      }
    }
  }

  /** How a punching loop ended: the attempts made, and whether by a reply or by an exception. */
  datatype Punched = Punched(attempts: nat, success: bool, raised: bool)

  /** Which attempts have a packet that can be encoded, by its number, its text and the clock. */
  ghost function Sends(texts: nat -> bytes, clocks: nat -> int): nat -> bool {
    (number: nat) => Sendable(PunchHeader(number), texts(number), clocks(number))
  }

  /** The loop, attempt by attempt; nothing catches what `packet.encode()` raises. */
  ghost function Punches(from: nat, max: nat, goes: nat -> bool, replies: nat -> Option<Reply>): Punched
    decreases max - from, 1
  {
    if from >= max then Punched(from, false, false) else Attempt(from + 1, max, goes, replies)
  }

  ghost function Attempt(n: nat, max: nat, goes: nat -> bool, replies: nat -> Option<Reply>): Punched
    requires n <= max
    decreases max - n, 2
  {
    if !goes(n) then Punched(n, false, true)
    else if replies(n).Some? then Punched(n, true, false)
    else Punches(n, max, goes, replies)
  }

  lemma Turn(n: nat, max: nat, goes: nat -> bool, replies: nat -> Option<Reply>, success: bool, raised: bool)
    requires n < max && raised == !goes(n + 1) && success == (goes(n + 1) && replies(n + 1).Some?)
    ensures Punches(n, max, goes, replies) ==
            if success || raised then Punched(n + 1, success, raised) else Punches(n + 1, max, goes, replies)
  {
    assert Punches(n, max, goes, replies) == Attempt(n + 1, max, goes, replies);
  }

  /**
   * The loop ends with attempt n, every packet before it sent and unanswered: by an exception exactly if packet n
   * cannot be encoded, otherwise by the reply to n or because n is the last.
   */
  lemma {:induction false} PunchesExactly(from: nat, max: nat, goes: nat -> bool, replies: nat -> Option<Reply>,
                                          end: Punched)
    requires from < max
    ensures var n := end.attempts;
            Punches(from, max, goes, replies) == end <==>
            && from < n <= max && (forall k :: from < k < n ==> goes(k) && replies(k).None?)
            && end.raised == !goes(n) && end.success == (goes(n) && replies(n).Some?)
            && (end.raised || end.success || n == max)
    decreases max - from
  {
    var next := from + 1;
    Turn(from, max, goes, replies, goes(next) && replies(next).Some?, !goes(next));
    if goes(next) && replies(next).None? && next < max {
      PunchesExactly(next, max, goes, replies, end);
    }
  }

  /**
   * Clocks are what decides: with texts below 4 GB and fewer than 2^32 attempts the loop raises exactly if a reading
   * outside 32 bits comes up before any reply. Today every reading is: the first attempt raises.
   */
  lemma ClocksDecide(from: nat, max: nat, texts: nat -> bytes, clocks: nat -> int, replies: nat -> Option<Reply>)
    requires from < max < 0x1_0000_0000 && forall k :: |texts(k)| < 0x1_0000_0000
    ensures Punches(from, max, Sends(texts, clocks), replies).raised <==>
            exists n :: from < n <= max && !InU32(clocks(n)) &&
                        forall k :: from < k < n ==> replies(k).None?
    ensures clocks(from + 1) >= 0x1_0000_0000 ==>
              Punches(from, max, Sends(texts, clocks), replies) == Punched(from + 1, false, true)
  {
    var goes := Sends(texts, clocks);
    var end := Punches(from, max, goes, replies);
    PunchesExactly(from, max, goes, replies, end);
    assert forall n :: 0 < n <= max ==> goes(n) == InU32(clocks(n));
    if n :| from < n <= max && !InU32(clocks(n)) && forall k :: from < k < n ==> replies(k).None? {
      assert end.attempts <= n;
    }
  }

  /** The counter of successes is the number of attempts marked successful. */
  lemma {:induction false} DistinctCount(ids: seq<string>)
    requires Distinct(ids)
    ensures |set id | id in ids| == |ids|
  {
    if ids != [] {
      var init, last := ids[..|ids| - 1], ids[|ids| - 1];
      DistinctCount(init);
      assert (set id | id in ids) == (set id | id in init) + {last};
    }
  }

  lemma SuccessesCounted(p: HolePuncher)
    requires p.Valid()
    ensures p.punchSuccesses == |p.Successful()|
  {
    DistinctCount(p.notified);
    assert (set id | id in p.notified) == p.Successful();
  }
}
