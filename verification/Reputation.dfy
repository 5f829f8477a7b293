/** Node reputation: a score that penalties lower and successes slowly restore. Floats are modelled as reals. */
module Reputation {

  datatype Rep = Rep(score: real, total: nat, failed: nat, avgLatency: real, penalties: seq<real>)

  datatype Op = Penalty(kind: string) | Success(latency: real) | Failure

  const FRESH := Rep(100.0, 0, 0, 0.0, [])

  function PenaltyFor(kind: string): (p: real)
    ensures 5.0 <= p <= 100.0
  {
    if kind == "handshake_failure" then 20.0
    else if kind == "high_latency" then 15.0
    else if kind == "packet_loss_per_percent" then 10.0
    else if kind == "relay_timeout" then 25.0
    else if kind == "protocol_violation" then 30.0
    else if kind == "replay_attack" then 100.0
    else 5.0
  }

  function Min(a: real, b: real): real {
    if a <= b then a else b
  }

  function Max(a: real, b: real): real {
    if a <= b then b else a
  }

  /** An average of exactly 0 counts as none yet, also when it was measured. */
  function Apply(r: Rep, op: Op): Rep {
    match op
    case Penalty(kind) =>
      r.(score := Max(0.0, r.score - PenaltyFor(kind)), penalties := r.penalties + [PenaltyFor(kind)])
    case Success(latency) =>
      r.(total := r.total + 1,
         avgLatency := if r.avgLatency == 0.0 then latency else 0.9 * r.avgLatency + 0.1 * latency,
         score := Min(100.0, r.score + 0.1))
    case Failure => r.(total := r.total + 1, failed := r.failed + 1)
  }

  function ApplyAll(r: Rep, ops: seq<Op>): Rep {
    if ops == [] then r else Apply(ApplyAll(r, ops[..|ops| - 1]), ops[|ops| - 1])
  }

  class NodeReputation {
    const nodeId: string
    var score: real
    var totalPackets: nat
    var failedPackets: nat
    var avgLatencyMs: real
    var penalties: seq<real>

    constructor (nodeId: string)
      ensures View() == FRESH
    {
      this.nodeId := nodeId;
      score, totalPackets, failedPackets, avgLatencyMs, penalties := 100.0, 0, 0, 0.0, [];
    }

    ghost function View(): Rep
      reads this
    {
      Rep(score, totalPackets, failedPackets, avgLatencyMs, penalties)
    }

    method ApplyPenalty(kind: string)
      modifies this
      ensures View() == Apply(old(View()), Penalty(kind))
    {
      var penalty := PenaltyFor(kind);
      score := Max(0.0, score - penalty);
      penalties := penalties + [penalty];
    }

    method RecordSuccess(latency: real)
      modifies this
      ensures View() == Apply(old(View()), Success(latency))
    {
      totalPackets := totalPackets + 1;
      if avgLatencyMs == 0.0 {
        avgLatencyMs := latency;
      } else {
        avgLatencyMs := 0.9 * avgLatencyMs + 0.1 * latency;
      }
      score := Min(100.0, score + 0.1);
    }

    method RecordFailure()
      modifies this
      ensures View() == Apply(old(View()), Failure)
    {
      totalPackets := totalPackets + 1;
      failedPackets := failedPackets + 1;
    }

    /** A share between 0 and 1 whenever no more packets failed than were counted. */
    method GetLossRate() returns (rate: real)
      ensures totalPackets == 0 ==> rate == 0.0
      ensures totalPackets > 0 ==> rate * totalPackets as real == failedPackets as real
      ensures failedPackets <= totalPackets ==> 0.0 <= rate <= 1.0
    {
      if totalPackets == 0 {
        return 0.0;
      }
      rate := failedPackets as real / totalPackets as real;
    }
  }

  predicate Trusted(r: Rep, threshold: real) {
    r.score >= threshold
  }

  // ---------------------------------------------------------------- over whole runs

  function Sum(xs: seq<real>): real {
    if xs == [] then 0.0 else Sum(xs[..|xs| - 1]) + xs[|xs| - 1]
  }

  function Successes(ops: seq<Op>): nat {
    if ops == [] then 0 else Successes(ops[..|ops| - 1]) + if ops[|ops| - 1].Success? then 1 else 0
  }

  function Failures(ops: seq<Op>): nat {
    if ops == [] then 0 else Failures(ops[..|ops| - 1]) + if ops[|ops| - 1].Failure? then 1 else 0
  }

  /** The score stays between 0 and 100 and no further below 100 than the logged penalties add up to. */
  lemma {:induction false} ScoreOverRuns(ops: seq<Op>)
    ensures var r := ApplyAll(FRESH, ops);
            0.0 <= r.score <= 100.0 && 100.0 - r.score <= Sum(r.penalties)
  {
    if ops != [] {
      ScoreOverRuns(ops[..|ops| - 1]);
      var r, t := ApplyAll(FRESH, ops[..|ops| - 1]), ApplyAll(FRESH, ops);
      if ops[|ops| - 1].Penalty? {
        assert t.penalties[..|t.penalties| - 1] == r.penalties;
      }
    }
  }

  /** The counters count: every success and failure once, and only failures as failed. */
  lemma {:induction false} CountersOverRuns(ops: seq<Op>)
    ensures var r := ApplyAll(FRESH, ops);
            r.failed == Failures(ops) && r.total == Successes(ops) + Failures(ops)
  {
    if ops != [] {
      CountersOverRuns(ops[..|ops| - 1]);
    }
  }

  /** The average latency stays within any bounds that hold for every recorded latency. */
  lemma {:induction false} LatencyOverRuns(ops: seq<Op>, lo: real, hi: real)
    requires forall op :: op in ops && op.Success? ==> lo <= op.latency <= hi
    ensures Successes(ops) > 0 ==> lo <= ApplyAll(FRESH, ops).avgLatency <= hi
    ensures Successes(ops) == 0 ==> ApplyAll(FRESH, ops).avgLatency == 0.0
  {
    if ops != [] {
      LatencyOverRuns(ops[..|ops| - 1], lo, hi);
    }
  }

  /** Without penalties, successes alone decide the score, a tenth of a point each. */
  lemma {:induction false} Recovery(r: Rep, ops: seq<Op>)
    requires r.score <= 100.0 && forall op :: op in ops ==> !op.Penalty?
    ensures ApplyAll(r, ops).score == Min(100.0, r.score + 0.1 * Successes(ops) as real)
  {
    if ops != [] {
      Recovery(r, ops[..|ops| - 1]);
    }
  }

  lemma {:induction false} RecoveryAtMost(r: Rep, ops: seq<Op>)
    requires 0.0 <= r.score
    ensures 0.0 <= ApplyAll(r, ops).score <= r.score + 0.1 * Successes(ops) as real
  {
    if ops != [] {
      RecoveryAtMost(r, ops[..|ops| - 1]);
    }
  }

  /**
   * Whatever came before a replay attack and whatever comes after it, a node needs 500 successes before it
   * is trusted at 50 again; and if there are no further penalties, 500 are enough.
   */
  lemma ReplayNeeds500(before: seq<Op>, ops: seq<Op>)
    ensures var r := ApplyAll(Apply(ApplyAll(FRESH, before), Penalty("replay_attack")), ops);
            && (Trusted(r, 50.0) ==> Successes(ops) >= 500)
            && ((forall op :: op in ops ==> !op.Penalty?) ==> (Trusted(r, 50.0) <==> Successes(ops) >= 500))
  {
    ScoreOverRuns(before);
    var hit := Apply(ApplyAll(FRESH, before), Penalty("replay_attack"));
    assert hit.score == 0.0;
    RecoveryAtMost(hit, ops);
    if forall op :: op in ops ==> !op.Penalty? {
      Recovery(hit, ops);
    }
  }

  // ---------------------------------------------------------------- single penalties, and the average

  /** What each kind of penalty costs; any other kind costs 5. */
  const COSTS: map<string, real> := map[
    "handshake_failure" := 20.0, "high_latency" := 15.0, "packet_loss_per_percent" := 10.0,
    "relay_timeout" := 25.0, "protocol_violation" := 30.0, "replay_attack" := 100.0]

  /** A penalty takes what it costs off the score, or what is left of it, is logged with its cost, and that is all. */
  lemma PenaltyExactly(r: Rep, kind: string)
    ensures var cost := if kind in COSTS then COSTS[kind] else 5.0;
            Apply(r, Penalty(kind)) ==
            Rep(if r.score <= cost then 0.0 else r.score - cost, r.total, r.failed, r.avgLatency, r.penalties + [cost])
  {
  }

  function Latencies(ops: seq<Op>): seq<real> {
    if ops == [] then []
    else
      var op, before := ops[|ops| - 1], Latencies(ops[..|ops| - 1]);
      if op.Success? then before + [op.latency] else before
  }

  function Power(x: real, n: nat): real {
    if n == 0 then 1.0 else x * Power(x, n - 1)
  }

  /** How much value i of n counts for: nine tenths less with every later one, the first one not being thinned. */
  function Weight(n: nat, i: nat): real
    requires i < n
  {
    (if i == 0 then 1.0 else 0.1) * Power(0.9, n - 1 - i)
  }

  /** The first k of n values, weighted. */
  function Weighted(ls: seq<real>, k: nat, n: nat): real
    requires k <= |ls| && k <= n
  {
    if k == 0 then 0.0 else Weighted(ls, k - 1, n) + Weight(n, k - 1) * ls[k - 1]
  }

  /**
   * While every recorded latency is above 0, the average is the sum of all of them, the last counting a tenth and
   * each earlier one nine tenths of the next, whatever penalties and failures came between.
   */
  lemma {:induction false} AverageExactly(ops: seq<Op>)
    requires forall op :: op in ops && op.Success? ==> op.latency > 0.0
    ensures var ls := Latencies(ops); ApplyAll(FRESH, ops).avgLatency == Weighted(ls, |ls|, |ls|)
    ensures Latencies(ops) != [] ==> ApplyAll(FRESH, ops).avgLatency > 0.0
  {
    if ops != [] {
      var init, op := ops[..|ops| - 1], ops[|ops| - 1];
      AverageExactly(init);
      if op.Success? {
        var ls := Latencies(init);
        OneMoreValue(ls, op.latency);
        assert ls + [op.latency] == Latencies(ops);
      }
    }
  }

  lemma OneMoreValue(ls: seq<real>, x: real)
    ensures var more := ls + [x];
            Weighted(more, |more|, |more|) == if ls == [] then x else 0.9 * Weighted(ls, |ls|, |ls|) + 0.1 * x
  {
    var n := |ls|;
    if n > 0 {
      Thinned(ls, ls + [x], n, n);
    } else {
      assert Weighted([x], 1, 1) == Weighted([x], 0, 1) + Weight(1, 0) * x;
      assert ls + [x] == [x];
    }
  }

  lemma {:induction false} Thinned(ls: seq<real>, more: seq<real>, k: nat, n: nat)
    requires k <= n <= |ls| && |ls| < |more| && more[..|ls|] == ls
    ensures Weighted(more, k, n + 1) == 0.9 * Weighted(ls, k, n)
  {
    if k > 0 {
      Thinned(ls, more, k - 1, n);
      assert more[k - 1] == more[..|ls|][k - 1] == ls[k - 1];
      assert Weight(n + 1, k - 1) == 0.9 * Weight(n, k - 1);
      var w, l := Weight(n, k - 1), ls[k - 1];
      assert (0.9 * w) * l == 0.9 * (w * l);
    }
  }
}
