/** The second port predictor: a sorted window around the expected port, of which the first five are tried. */
module BirthdayPunch {
  import opened Sorting

  datatype Isp = UNKNOWN | CHINA_TELECOM | CHINA_UNICOM | CHINA_MOBILE | OTHER

  /** An ISP without parameters of its own is treated as OTHER. */
  function PortIncrement(isp: Isp): (inc: nat)
    ensures 16 <= inc <= 64
  {
    match isp
    case CHINA_TELECOM => 48
    case CHINA_UNICOM => 64
    case CHINA_MOBILE => 32
    case OTHER => 16
    case UNKNOWN => 16
  }

  const TIME_WINDOW_MS: nat := 200

  /** Division rounds down, as Python's does, also for a negative delta. */
  function ExpectedPort(base: int, inc: nat, delta: int): int {
    base + delta / TIME_WINDOW_MS * inc
  }

  predicate ValidPort(p: int) {
    1024 <= p <= 65535
  }

  /** Up to three increments around the expected port, or up to two above the base. */
  predicate Candidate(base: int, inc: nat, delta: int, p: int) {
    var e := ExpectedPort(base, inc, delta);
    || p == e - 3 * inc || p == e - 2 * inc || p == e - inc || p == e
    || p == e + inc || p == e + 2 * inc || p == e + 3 * inc
    || p == base || p == base + inc || p == base + 2 * inc
  }

  method PredictPortRange(base: int, inc: nat, delta: int) returns (r: seq<nat>)
    ensures StrictlyIncreasing(r)
    ensures forall p: nat :: p in r <==> ValidPort(p) && Candidate(base, inc, delta, p)
    ensures |r| <= 10
  {
    var portChanges := delta / TIME_WINDOW_MS;
    var expected := base + portChanges * inc;
    var ports := [];
    for i := -3 to 4
      invariant |ports| == i + 3
      invariant forall k :: 0 <= k < |ports| ==> ports[k] == expected + (k - 3) * inc
    {
      ports := ports + [expected + i * inc];
    }
    ghost var window := ports;
    ports := ports + [base, base + inc, base + 2 * inc];
    AllCandidates(base, inc, delta, window);
    var valid := set p: nat | p in ports && ValidPort(p);
    r := Sorted(valid);
    assert forall p: int :: p in ports <==> p in window || p == base || p == base + inc || p == base + 2 * inc;
    AtMost(r, ports);
  }

  lemma AllCandidates(base: int, inc: nat, delta: int, window: seq<int>)
    requires |window| == 7
    requires forall k :: 0 <= k < 7 ==> window[k] == ExpectedPort(base, inc, delta) + (k - 3) * inc
    ensures forall p :: Candidate(base, inc, delta, p) <==>
                        p in window || p == base || p == base + inc || p == base + 2 * inc
  {
    var e := ExpectedPort(base, inc, delta);
    assert window == [e - 3 * inc, e - 2 * inc, e - inc, e, e + inc, e + 2 * inc, e + 3 * inc];
  }

  /** The base moved by so many increments, up or down. */
  function Moved(base: int, inc: nat, m: int): int {
    base + m * inc
  }

  /**
   * The candidates in plain numbers: for a start that is q whole windows of 200 ms later, up to three increments
   * around the base moved by q increments, and the base moved by none, one or two.
   */
  lemma CandidatesExactly(base: int, inc: nat, delta: int, q: int, p: int)
    requires 200 * q <= delta < 200 * (q + 1)
    ensures Candidate(base, inc, delta, p) <==>
            (exists m :: q - 3 <= m <= q + 3 && p == Moved(base, inc, m)) ||
            (exists m :: 0 <= m <= 2 && p == Moved(base, inc, m))
    ensures ValidPort(p) <==> 1024 <= p <= 65535
  {
    assert delta / 200 == q;
    var e := ExpectedPort(base, inc, delta);
    assert e == Moved(base, inc, q);
    AroundExactly(base, inc, q, e, p);
    assert Moved(base, inc, 0) == base && Moved(base, inc, 1) == base + inc && Moved(base, inc, 2) == base + 2 * inc;
    if m :| 0 <= m <= 2 && p == Moved(base, inc, m) {
      assert m == 0 || m == 1 || m == 2;
    }
  }

  lemma AroundExactly(base: int, inc: nat, q: int, e: int, p: int)
    requires e == Moved(base, inc, q)
    ensures (exists m :: q - 3 <= m <= q + 3 && p == Moved(base, inc, m)) <==>
            p == e - 3 * inc || p == e - 2 * inc || p == e - inc || p == e
            || p == e + inc || p == e + 2 * inc || p == e + 3 * inc
  {
    assert Moved(base, inc, q - 3) == e - 3 * inc && Moved(base, inc, q - 2) == e - 2 * inc;
    assert Moved(base, inc, q - 1) == e - inc && Moved(base, inc, q + 1) == e + inc;
    assert Moved(base, inc, q + 2) == e + 2 * inc && Moved(base, inc, q + 3) == e + 3 * inc;
    if m :| q - 3 <= m <= q + 3 && p == Moved(base, inc, m) {
      assert m == q - 3 || m == q - 2 || m == q - 1 || m == q || m == q + 1 || m == q + 2 || m == q + 3;
    }
  }

  /** The increments; any ISP without parameters of its own has 16. */
  lemma IncrementsAre(isp: Isp)
    ensures PortIncrement(isp) == match isp case CHINA_TELECOM => 48 case CHINA_UNICOM => 64 case CHINA_MOBILE => 32
                                            case OTHER => 16 case UNKNOWN => PortIncrement(OTHER)
  {
  }

  /** A strictly increasing selection is no longer than what it selects from. */
  lemma {:induction false} AtMost(s: seq<int>, from: seq<int>)
    requires StrictlyIncreasing(s) && forall x :: x in s ==> x in from
    ensures |s| <= |from|
    decreases |s|
  {
    if s != [] {
      assert s[0] in s;
      var i :| 0 <= i < |from| && from[i] == s[0];
      var rest := from[..i] + from[i + 1..];
      assert s == [s[0]] + s[1..];
      forall x | x in s[1..] ensures x in rest {
        var k :| 0 <= k < |s| - 1 && s[1..][k] == x;
        assert x == s[k + 1] > s[0] && x in s;
        var j :| 0 <= j < |from| && from[j] == x;
        assert j < i ==> from[..i][j] == x;
        assert j > i ==> from[i + 1..][j - i - 1] == x;
      }
      AtMost(s[1..], rest);
    }
  }

  /** The place of the known base port among the predictions. */
  lemma BaseTried(base: nat, inc: nat, delta: nat, r: seq<nat>)
    requires ValidPort(base) && StrictlyIncreasing(r)
    requires forall p: nat :: p in r <==> ValidPort(p) && Candidate(base, inc, delta, p)
    ensures exists k :: 0 <= k < 4 && k < |r| && r[k] == base
  {
    assert base in r;
    var k :| 0 <= k < |r| && r[k] == base;
    var e := ExpectedPort(base, inc, delta);
    assert e >= base;
    forall p | p in r[..k] ensures p in [e - 3 * inc, e - 2 * inc, e - inc] {
      var i :| 0 <= i < k && r[i] == p;
      assert r[i] in r && r[i] < base;
    }
    AtMost(r[..k], [e - 3 * inc, e - 2 * inc, e - inc]);
  }

  lemma {:induction false} SameIncreasing(a: seq<nat>, b: seq<nat>)
    requires StrictlyIncreasing(a) && StrictlyIncreasing(b) && forall x: nat :: x in a <==> x in b
    ensures a == b
    decreases |a|
  {
    AtMost(a, b);
    AtMost(b, a);
    if a != [] {
      assert a[0] in a && a[0] in b;
      assert b[0] in b && b[0] in a;
      assert a == [a[0]] + a[1..] && b == [b[0]] + b[1..];
      forall x: nat ensures x in a[1..] <==> x in b[1..] {
        assert x in a[1..] <==> x in a && x != a[0];
        assert x in b[1..] <==> x in b && x != b[0];
      }
      SameIncreasing(a[1..], b[1..]);
    }
  }

  function FirstFive(ports: seq<nat>): seq<nat> {
    if |ports| <= 5 then ports else ports[..5]
  }

  /** A port is among the first five exactly when fewer than five of the predicted ports lie below it. */
  lemma PlaceOf(r: seq<nat>, k: nat)
    requires StrictlyIncreasing(r) && k < |r|
    ensures r[k] in FirstFive(r) <==> k < 5
    ensures forall x: nat :: x in r[..k] <==> x in r && x < r[k]
  {
    forall x: nat ensures x in r[..k] <==> x in r && x < r[k] {
      if x in r && x < r[k] {
        var i :| 0 <= i < |r| && r[i] == x;
        assert r[..k][i] == x;
      }
    }
    if k < 5 {
      assert FirstFive(r)[k] == r[k];
    }
  }

  /** What is predicted for a simultaneous start. */
  ghost predicate Simultaneous(base: nat, inc: nat, r: seq<nat>) {
    StrictlyIncreasing(r) && forall p: nat :: p in r <==> ValidPort(p) && Candidate(base, inc, 0, p)
  }

  lemma FourBelow(base: nat, inc: nat, r: seq<nat>, k: nat)
    requires inc > 0 && base < 1024 + 3 * inc && Simultaneous(base, inc, r) && k < |r| && r[k] == base + 2 * inc
    ensures k < 5
  {
    PlaceOf(r, k);
    forall x | x in r[..k] ensures x in [base - 2 * inc, base - inc, base, base + inc] {
      assert x in r && x < base + 2 * inc;
    }
    AtMost(r[..k], [base - 2 * inc, base - inc, base, base + inc]);
  }

  lemma FiveBelow(base: nat, inc: nat, r: seq<nat>, k: nat)
    requires inc > 0 && base >= 1024 + 3 * inc && base + 2 * inc <= 65535 && Simultaneous(base, inc, r)
    requires k < |r| && r[k] == base + 2 * inc
    ensures k >= 5
  {
    PlaceOf(r, k);
    var five: seq<nat> := [base - 3 * inc, base - 2 * inc, base - inc, base, base + inc];
    forall x | x in five ensures x in r[..k] {
      assert Candidate(base, inc, 0, x) && ValidPort(x);
    }
    AtMost(five, r[..k]);
  }

  /**
   * Of a simultaneous start's predictions, `base + 2 * increment`, put in on purpose as a common port, is tried
   * exactly when it is a port at all and the lowest candidate is not: otherwise five others come before it.
   */
  lemma CommonPortTried(base: nat, inc: nat, r: seq<nat>)
    requires inc > 0 && ValidPort(base) && Simultaneous(base, inc, r)
    ensures base + 2 * inc in FirstFive(r) <==> base + 2 * inc <= 65535 && base < 1024 + 3 * inc
  {
    var p := base + 2 * inc;
    assert p in r <==> p <= 65535;
    if p in r {
      var k :| 0 <= k < |r| && r[k] == p;
      PlaceOf(r, k);
      if base < 1024 + 3 * inc {
        FourBelow(base, inc, r, k);
      } else {
        FiveBelow(base, inc, r, k);
      }
    }
  }

  /** Away from the ends of the port range that leaves the two highest of seven predictions untried. */
  lemma FiveTried(base: nat, inc: nat, r: seq<nat>)
    requires inc > 0 && 1024 + 3 * inc <= base && base + 3 * inc <= 65535 && Simultaneous(base, inc, r)
    ensures r == [base - 3 * inc, base - 2 * inc, base - inc, base, base + inc, base + 2 * inc, base + 3 * inc]
    ensures base + 2 * inc !in FirstFive(r)
  {
    var w: seq<nat> := [base - 3 * inc, base - 2 * inc, base - inc, base, base + inc, base + 2 * inc, base + 3 * inc];
    assert ExpectedPort(base, inc, 0) == base;
    assert forall p: nat :: p in w <==> p in r;
    assert StrictlyIncreasing(w);
    SameIncreasing(r, w);
    CommonPortTried(base, inc, r);
  }

  // ---------------------------------------------------------------- trying them

  datatype Attempt = Attempt(port: nat, number: nat)

  /** Whether the i-th send of a round goes out; one that raises is not recorded. */
  type Sends = (nat, nat) -> bool

  function Numbered(ports: seq<nat>, number: nat, sends: Sends): seq<Attempt> {
    if ports == [] then []
    else
      var i := |ports| - 1;
      Numbered(ports[..i], number, sends) + if sends(number, i) then [Attempt(ports[i], number)] else []
  }

  /** The attempts of rounds 1 to `rounds`. */
  function Rounds(ports: seq<nat>, rounds: nat, sends: Sends): seq<Attempt> {
    if rounds == 0 then [] else Rounds(ports, rounds - 1, sends) + Numbered(ports, rounds, sends)
  }

  ghost predicate WentOut(ports: seq<nat>, sends: Sends, a: Attempt) {
    exists i :: 0 <= i < |ports| && ports[i] == a.port && sends(a.number, i)
  }

  /** Of every round, the recorded attempts are the tried ports whose send went out, each under the round's number. */
  lemma {:induction false} AttemptsExactly(ports: seq<nat>, rounds: nat, sends: Sends, a: Attempt)
    ensures a in Rounds(ports, rounds, sends) <==> 1 <= a.number <= rounds && WentOut(ports, sends, a)
  {
    if rounds > 0 {
      AttemptsExactly(ports, rounds - 1, sends, a);
      NumberedExactly(ports, rounds, sends, a);
    }
  }

  lemma {:induction false} NumberedExactly(ports: seq<nat>, number: nat, sends: Sends, a: Attempt)
    ensures a in Numbered(ports, number, sends) <==> a.number == number && WentOut(ports, sends, a)
  {
    if ports != [] {
      var n := |ports| - 1;
      NumberedExactly(ports[..n], number, sends, a);
      if i :| 0 <= i < |ports| && ports[i] == a.port && sends(a.number, i) {
        assert i < n ==> ports[..n][i] == a.port;
      }
      if i :| 0 <= i < n && ports[..n][i] == a.port && sends(a.number, i) {
        assert ports[i] == a.port;
      }
    }
  }

  class Puncher {
    var attempts: seq<Attempt>

    constructor ()
      ensures attempts == []
    {
      attempts := [];
    }

    /** `_coordinated_punch`: `time` is how many rounds the timeout allows, `acks(k)` whether round k is answered. */
    method CoordinatedPunch(predicted: seq<nat>, time: nat, acks: nat -> bool, sends: Sends)
      returns (success: bool, rounds: nat)
      modifies this
      ensures rounds <= time && attempts == old(attempts) + Rounds(FirstFive(predicted), rounds, sends)
      ensures success <==> exists k :: 1 <= k <= time && acks(k)
      ensures success ==> acks(rounds) && forall k :: 1 <= k < rounds ==> !acks(k)
      ensures !success ==> rounds == time
    {
      rounds := 0;
      var ports := FirstFive(predicted);
      while rounds < time
        invariant rounds <= time && attempts == old(attempts) + Rounds(ports, rounds, sends)
        invariant forall k :: 1 <= k <= rounds ==> !acks(k)
      {
        ghost var before := attempts;
        rounds := rounds + 1;
        for i := 0 to |ports|
          invariant attempts == before + Numbered(ports[..i], rounds, sends)
        {
          assert ports[..i + 1][..i] == ports[..i];
          if sends(rounds, i) {
            attempts := attempts + [Attempt(ports[i], rounds)];
          }
        }
        assert ports[..|ports|] == ports;
        if acks(rounds) {
          return true, rounds;
        }
      }
      success := false;
    }
  }
}
