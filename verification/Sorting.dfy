/** Python's `sorted` on a set of numbers, which ProtocolAdapter and BirthdayPunch rely on. */
module Sorting {

  ghost predicate StrictlyIncreasing(s: seq<int>) {
    forall i, j :: 0 <= i < j < |s| ==> s[i] < s[j]
  }

  /** x put in its place, unless it is there already. */
  function Insert(s: seq<nat>, x: nat): seq<nat> {
    if s == [] || x < s[0] then [x] + s
    else if x == s[0] then s
    else [s[0]] + Insert(s[1..], x)
  }

  lemma {:induction false} InsertCorrect(s: seq<nat>, x: nat)
    requires StrictlyIncreasing(s)
    ensures StrictlyIncreasing(Insert(s, x))
    ensures forall y: nat :: y in Insert(s, x) <==> y == x || y in s
  {
    if s != [] && x > s[0] {
      var r := Insert(s[1..], x);
      InsertCorrect(s[1..], x);
      assert s == [s[0]] + s[1..];
      forall i | 0 <= i < |r| ensures s[0] < r[i] {
        assert r[i] in r;
      }
    }
  }

  method Sorted(elements: set<nat>) returns (s: seq<nat>)
    ensures StrictlyIncreasing(s)
    ensures forall y: nat :: y in s <==> y in elements
  {
    s := [];
    var left := elements;
    while left != {}
      invariant left <= elements && StrictlyIncreasing(s)
      invariant forall y: nat :: y in s <==> y in elements - left
    {
      var x :| x in left;
      InsertCorrect(s, x);
      s := Insert(s, x);
      left := left - {x};
    }
  }
}
