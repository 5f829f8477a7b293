/** Python's insertion-ordered dictionaries: assigning to an existing key keeps its place. */
module PyDict {

  datatype RawDict<K, +V> = RawDict(entries: map<K, V>, order: seq<K>)

  ghost predicate Distinct<K(!new)>(ks: seq<K>) {
    forall i, j :: 0 <= i < j < |ks| ==> ks[i] != ks[j]
  }

  /** `order` lists the keys, each once. */
  ghost predicate Ordered<K(!new), V>(d: RawDict<K, V>) {
    && Distinct(d.order)
    && forall k {:trigger k in d.order} :: k in d.order <==> k in d.entries
  }

  type Dict<K(!new), +V> = d: RawDict<K, V> | Ordered(d) witness RawDict(map[], [])

  function Empty<K(!new), V>(): Dict<K, V> {
    RawDict(map[], [])
  }

  function Put<K(!new, ==), V>(d: Dict<K, V>, k: K, v: V): Dict<K, V> {
    assert k in d.order <==> k in d.entries;
    RawDict(d.entries[k := v], if k in d.entries then d.order else d.order + [k])
  }

  function Del<K(!new, ==), V>(d: Dict<K, V>, k: K): (r: Dict<K, V>)
    ensures k !in d.entries ==> r == d
  {
    assert k in d.order <==> k in d.entries;
    RawDict(d.entries - {k}, Without(d.order, k))
  }

  function Without<K(!new, ==)>(ks: seq<K>, k: K): (r: seq<K>)
    requires Distinct(ks)
    ensures Distinct(r) && forall x :: x in r <==> x in ks && x != k
    ensures k !in ks ==> r == ks
  {
    if ks == [] then []
    else if ks[0] == k then ks[1..]
    else
      assert ks[0] !in ks[1..];
      [ks[0]] + Without(ks[1..], k)
  }

  /** Taking a key out leaves the others in their order. */
  lemma {:induction false} WithoutKeepsOrder<K(!new)>(before: seq<K>, k: K, after: seq<K>)
    requires Distinct(before + [k] + after)
    ensures Without(before + [k] + after, k) == before + after
  {
    var all := before + [k] + after;
    if before == [] {
      assert all == [k] + after && all[0] == k && all[1..] == after && before + after == after;
    } else {
      assert all[0] == before[0] != all[|before|] == k;
      assert all[1..] == before[1..] + [k] + after;
      WithoutKeepsOrder(before[1..], k, after);
      assert before + after == [before[0]] + (before[1..] + after);
    }
  }
}
