/** The multiset of a map's values, counted key by key. */
module MapBags {
  import opened Sequences

  ghost function SomeKey<T>(m: map<nat, T>): (k: nat)
    requires m != map[]
    ensures k in m
  {
    var k :| k in m; k
  }

  ghost function Bag<T>(m: map<nat, T>): multiset<T>
    decreases |m|
  {
    if m == map[] then multiset{}
    else Bag(m - {SomeKey(m)}) + multiset{m[SomeKey(m)]}
  }

  lemma RemovalsCommute<T>(m: map<nat, T>, j: nat, k: nat)
    ensures m - {j} - {k} == m - {k} - {j}
  {
  }

  lemma RemovalShrinks<T>(m: map<nat, T>, k: nat)
    requires k in m
    ensures |m - {k}| < |m|
  {
    assert (m - {k}).Keys == m.Keys - {k};
  }

  /** The bag does not depend on the order in which keys are counted. */
  lemma {:induction false} BagWithout<T>(m: map<nat, T>, k: nat)
    requires k in m
    ensures Bag(m) == Bag(m - {k}) + multiset{m[k]}
    decreases |m|
  {
    var j: nat := SomeKey(m);
    if j != k {
      RemovalShrinks(m, j);
      RemovalShrinks(m, k);
      BagWithout(m - {j}, k);
      BagWithout(m - {k}, j);
      RemovalsCommute(m, j, k);
    }
  }

  /** `keys` lists every key of the map once. */
  ghost predicate Lists<T>(keys: seq<nat>, m: map<nat, T>) {
    NoDuplicates(keys) && forall k :: k in keys <==> k in m
  }

  lemma ListsFront<T>(keys: seq<nat>, m: map<nat, T>)
    requires Lists(keys, m) && keys != []
    ensures Lists(keys[..|keys| - 1], m - {keys[|keys| - 1]})
  {
    var last := |keys| - 1;
    assert keys == keys[..last] + [keys[last]];
  }

  lemma CountLast<T>(values: seq<T>)
    requires values != []
    ensures multiset(values) == multiset(values[..|values| - 1]) + multiset{values[|values| - 1]}
  {
    assert values == values[..|values| - 1] + [values[|values| - 1]];
  }

  /** Counting along any listing of the keys gives the bag. */
  lemma {:induction false} BagAlong<T>(m: map<nat, T>, keys: seq<nat>, values: seq<T>)
    requires Lists(keys, m) && |values| == |keys|
    requires forall i :: 0 <= i < |keys| ==> keys[i] in m && values[i] == m[keys[i]]
    ensures Bag(m) == multiset(values)
    decreases |keys|
  {
    if keys == [] {
      assert m == map[];
    } else {
      var last := |keys| - 1;
      ListsFront(keys, m);
      CountLast(values);
      BagAlong(m - {keys[last]}, keys[..last], values[..last]);
      BagWithout(m, keys[last]);
    }
  }
}
