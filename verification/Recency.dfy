/** Searching and sorting a table by recency stamp. */
module Recency {
  import opened Sets
  import opened Lru

  /** The oldest of some keys. */
  method OldestIn<K(==, !new), V>(t: map<K, Slot<V>>, keys: set<K>) returns (k: K)
    requires Distinct(t) && keys <= t.Keys && keys != {}
    ensures k in keys && forall j :: j in keys && j != k ==> t[k].stamp < t[j].stamp
  {
    k :| k in keys;
    var rest := keys - {k};
    while rest != {}
      invariant rest <= keys && k in keys - rest
      invariant forall j :: j in keys - rest && j != k ==> t[k].stamp < t[j].stamp
      decreases |rest|
    {
      var j :| j in rest;
      if t[j].stamp < t[k].stamp {
        k := j;
      }
      rest := rest - {j};
    }
  }

  /** All keys, oldest first. */
  method InOrder<K(==, !new), V>(t: map<K, Slot<V>>) returns (order: seq<K>)
    requires Distinct(t)
    ensures OldestFirst(t, order) && Elements(order) == t.Keys
  {
    order := [];
    var rest := t.Keys;
    while rest != {}
      invariant rest <= t.Keys && OldestFirst(t, order)
      invariant Elements(order) == t.Keys - rest
      invariant IsPrefix(t, Elements(order))
      decreases |rest|
    {
      var k := OldestIn(t, rest);
      ExtendOrder(t, order, rest, k);
      order := order + [k];
      rest := rest - {k};
    }
  }

  lemma ExtendOrder<K(!new), V>(t: map<K, Slot<V>>, order: seq<K>, rest: set<K>, k: K)
    requires OldestFirst(t, order) && rest <= t.Keys && Elements(order) == t.Keys - rest
    requires IsPrefix(t, Elements(order))
    requires k in rest && forall j :: j in rest && j != k ==> t[k].stamp < t[j].stamp
    ensures OldestFirst(t, order + [k])
    ensures Elements(order + [k]) == t.Keys - (rest - {k})
    ensures IsPrefix(t, Elements(order + [k]))
  {
    ElementsOfAppend(order, [k]);
    assert Elements([k]) == {k};
    assert forall i :: 0 <= i < |order| ==> order[i] in Elements(order);
  }
}
