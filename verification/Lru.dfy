/** Least-recently-used eviction, stated once for the memory cache and the disk store.
    A table gives every key a value, a recency stamp and a weight. */
module Lru {
  import opened Sets

  datatype Slot<+V> = Slot(value: V, stamp: nat, weight: nat)

  /** What one admission asks for: the weight of the new item and both limits. */
  datatype Room = Room(extra: nat, maxCount: nat, maxWeight: nat)

  /** The room of a table that is within the limits already. */
  function Limit(maxCount: nat, maxWeight: nat): Room {
    Room(0, maxCount + 1, maxWeight)
  }

  /** Total weight of a table. */
  ghost function Weight<K, V>(t: map<K, Slot<V>>): nat
  {
    if t == map[] then 0
    else
      var k :| k in t;
      t[k].weight + Weight(t - {k})
  }

  lemma {:induction false} WeightRemove<K, V>(t: map<K, Slot<V>>, k: K)
    requires k in t
    ensures Weight(t) == t[k].weight + Weight(t - {k})
    decreases |t|
  {
    var j :| j in t && Weight(t) == t[j].weight + Weight(t - {j});
    if j != k {
      WeightRemove(t - {j}, k);
      WeightRemove(t - {k}, j);
      assert t - {j} - {k} == t - {k} - {j};
    }
  }

  lemma WeightInsert<K, V>(t: map<K, Slot<V>>, k: K, slot: Slot<V>)
    requires k !in t
    ensures Weight(t[k := slot]) == Weight(t) + slot.weight
  {
    var u := t[k := slot];
    WeightRemove(u, k);
    assert u - {k} == t;
  }

  /** Weight depends on the weights only, not on the stamps. */
  lemma {:induction false} WeightOfSameWeights<K, V>(t: map<K, Slot<V>>, u: map<K, Slot<V>>)
    requires t.Keys == u.Keys
    requires forall k :: k in t ==> t[k].weight == u[k].weight
    ensures Weight(t) == Weight(u)
    decreases |t|
  {
    if t == map[] {
      assert u == map[];
    } else {
      var k :| k in t;
      WeightRemove(t, k);
      WeightRemove(u, k);
      WeightOfSameWeights(t - {k}, u - {k});
    }
  }

  /** A part weighs what the whole weighs less what is left. */
  lemma {:induction false} WeightSplit<K, V>(t: map<K, Slot<V>>, part: set<K>)
    requires part <= t.Keys
    ensures Weight(t) == Weight(t - part) + Weight(map k | k in part :: t[k])
    decreases |part|
  {
    var taken := map k | k in part :: t[k];
    if part == {} {
      assert t - part == t;
      assert taken == map[];
    } else {
      var k :| k in part;
      WeightSplit(t, part - {k});
      var rest := t - (part - {k});
      WeightRemove(rest, k);
      assert rest - {k} == t - part;
      WeightRemove(taken, k);
      assert taken - {k} == map j | j in part - {k} :: t[j];
    }
  }

  lemma WeightMonotone<K, V>(t: map<K, Slot<V>>, gone: set<K>)
    ensures Weight(t - gone) <= Weight(t)
  {
    WeightSplit(t, gone * t.Keys);
    assert t - gone * t.Keys == t - gone;
  }

  /** If every weight is at least two, twice the number of keys is bounded by the weight. */
  lemma {:induction false} CountBelowWeight<K, V>(t: map<K, Slot<V>>)
    requires forall k :: k in t ==> 2 <= t[k].weight
    ensures 2 * |t| <= Weight(t)
    decreases |t|
  {
    if t == map[] {
    } else {
      var k :| k in t;
      WeightRemove(t, k);
      CountBelowWeight(t - {k});
      assert (t - {k}).Keys == t.Keys - {k};
    }
  }

  ghost predicate Distinct<K(!new), V>(t: map<K, Slot<V>>) {
    forall a, b :: a in t && b in t && a != b ==> t[a].stamp != t[b].stamp
  }

  /** There is room for one more item of weight `room.extra`. */
  ghost predicate Fits<K, V>(t: map<K, Slot<V>>, room: Room) {
    |t| < room.maxCount && Weight(t) + room.extra <= room.maxWeight
  }

  /** `dropped` holds the least recently used keys of `t`. */
  ghost predicate IsPrefix<K(!new), V>(t: map<K, Slot<V>>, dropped: set<K>) {
    && dropped <= t.Keys
    && forall a, b :: a in dropped && b in t && b !in dropped ==> t[a].stamp < t[b].stamp
  }

  /** `dropped` is the shortest least-recently-used prefix whose removal makes room. */
  ghost predicate IsShortestPrefix<K(!new), V>(t: map<K, Slot<V>>, dropped: set<K>, room: Room) {
    && IsPrefix(t, dropped)
    && Fits(t - dropped, room)
    && NoShorterFits(t, dropped, room)
  }

  ghost predicate NoShorterFits<K(!new), V>(t: map<K, Slot<V>>, dropped: set<K>, room: Room) {
    forall shorter: set<K> :: IsPrefix(t, shorter) && shorter < dropped ==> !Fits(t - shorter, room)
  }

  /** Prefixes of one table are ordered by inclusion. */
  lemma PrefixesNest<K(!new), V>(t: map<K, Slot<V>>, p: set<K>, q: set<K>)
    requires IsPrefix(t, p) && IsPrefix(t, q)
    ensures p <= q || q <= p
  {
    if !(p <= q) {
      var a :| a in p && a !in q;
      assert forall b :: b in q ==> b in p;
    }
  }

  /** The shortest prefix is determined by the table and the limits. */
  lemma ShortestPrefixUnique<K(!new), V>(t: map<K, Slot<V>>, p: set<K>, q: set<K>, room: Room)
    requires IsShortestPrefix(t, p, room)
    requires IsShortestPrefix(t, q, room)
    ensures p == q
  {
    PrefixesNest(t, p, q);
  }

  /** One turn of an eviction loop: the oldest remaining key extends the prefix. */
  lemma ExtendPrefix<K(!new), V>(t: map<K, Slot<V>>, dropped: set<K>, k: K, room: Room)
    requires IsPrefix(t, dropped) && NoShorterFits(t, dropped, room)
    requires !Fits(t - dropped, room)
    requires k in t && k !in dropped
    requires forall j :: j in t && j !in dropped && j != k ==> t[k].stamp < t[j].stamp
    ensures IsPrefix(t, dropped + {k}) && NoShorterFits(t, dropped + {k}, room)
  {
    forall shorter: set<K> | IsPrefix(t, shorter) && shorter < dropped + {k}
      ensures !Fits(t - shorter, room)
    {
      PrefixesNest(t, shorter, dropped);
      if dropped <= shorter {
        assert shorter == dropped;
      } else {
        assert shorter < dropped;
      }
    }
  }

  /** Removing everything makes room for any item that respects the limits by itself. */
  lemma EmptyFits<K(!new), V>(t: map<K, Slot<V>>, dropped: set<K>, room: Room)
    requires dropped <= t.Keys
    requires !Fits(t - dropped, room)
    requires 0 < room.maxCount && room.extra <= room.maxWeight
    ensures exists k :: k in t && k !in dropped
  {
    assert t - dropped != map[];
    var k :| k in t - dropped;
  }

  /** Relabelling the stamps without changing their order. */
  ghost predicate SameOrder<K(!new), V>(t: map<K, Slot<V>>, u: map<K, Slot<V>>) {
    && t.Keys == u.Keys
    && (forall k :: k in t ==> t[k].weight == u[k].weight)
    && forall a, b :: a in t && b in t ==> (t[a].stamp < t[b].stamp <==> u[a].stamp < u[b].stamp)
  }

  /** Tables in the same order evict the same keys. */
  lemma SameOrderSameVictims<K(!new), V>(t: map<K, Slot<V>>, u: map<K, Slot<V>>, dropped: set<K>, room: Room)
    requires SameOrder(t, u)
    requires IsShortestPrefix(t, dropped, room)
    ensures IsShortestPrefix(u, dropped, room)
  {
    assert IsPrefix(u, dropped);
    SameOrderSameFit(t, u, dropped, room);
    forall shorter: set<K> | IsPrefix(u, shorter) && shorter < dropped
      ensures !Fits(u - shorter, room)
    {
      assert IsPrefix(t, shorter);
      SameOrderSameFit(t, u, shorter, room);
    }
  }

  lemma SameOrderSameFit<K(!new), V>(t: map<K, Slot<V>>, u: map<K, Slot<V>>, gone: set<K>, room: Room)
    requires SameOrder(t, u)
    ensures Fits(t - gone, room) <==> Fits(u - gone, room)
  {
    assert (t - gone).Keys == (u - gone).Keys;
    WeightOfSameWeights(t - gone, u - gone);
    assert |t - gone| == |(t - gone).Keys|;
    assert |u - gone| == |(u - gone).Keys|;
  }

  /** The keys of a list, least recently used first. */
  ghost predicate OldestFirst<K(!new), V>(t: map<K, Slot<V>>, keys: seq<K>) {
    && (forall i :: 0 <= i < |keys| ==> keys[i] in t)
    && forall i, j :: 0 <= i < j < |keys| ==> t[keys[i]].stamp < t[keys[j]].stamp
  }

  /** There is only one way to list a set of keys in recency order. */
  lemma {:induction false} OldestFirstUnique<K(!new), V>(t: map<K, Slot<V>>, p: seq<K>, q: seq<K>)
    requires OldestFirst(t, p) && OldestFirst(t, q)
    requires Elements(p) == Elements(q)
    ensures p == q
    decreases |p|
  {
    if p == [] || q == [] {
      NoElements(p);
      NoElements(q);
    } else {
      SameNewest(t, p, q);
      ElementsOfFront(t, p);
      ElementsOfFront(t, q);
      OldestFirstFront(t, p);
      OldestFirstFront(t, q);
      OldestFirstUnique(t, p[..|p| - 1], q[..|q| - 1]);
      assert p == p[..|p| - 1] + [p[|p| - 1]] && q == q[..|q| - 1] + [q[|q| - 1]];
    }
  }

  lemma SameNewest<K(!new), V>(t: map<K, Slot<V>>, p: seq<K>, q: seq<K>)
    requires OldestFirst(t, p) && OldestFirst(t, q) && p != [] && q != []
    requires Elements(p) == Elements(q)
    ensures p[|p| - 1] == q[|q| - 1]
  {
    LastIsNewest(t, p, q[|q| - 1]);
    LastIsNewest(t, q, p[|p| - 1]);
  }

  lemma OldestFirstFront<K(!new), V>(t: map<K, Slot<V>>, p: seq<K>)
    requires OldestFirst(t, p) && p != []
    ensures OldestFirst(t, p[..|p| - 1])
  {
  }

  lemma LastIsNewest<K(!new), V>(t: map<K, Slot<V>>, p: seq<K>, k: K)
    requires OldestFirst(t, p) && p != []
    ensures p[|p| - 1] in Elements(p)
    ensures k in Elements(p) ==> k == p[|p| - 1] || t[k].stamp < t[p[|p| - 1]].stamp
  {
    if k in Elements(p) {
      var i :| 0 <= i < |p| && p[i] == k;
    }
  }

  lemma ElementsOfFront<K(!new), V>(t: map<K, Slot<V>>, p: seq<K>)
    requires OldestFirst(t, p) && p != []
    ensures Elements(p[..|p| - 1]) == Elements(p) - {p[|p| - 1]}
  {
    var front, last := p[..|p| - 1], p[|p| - 1];
    assert p == front + [last];
    ElementsOfAppend(front, [last]);
    assert Elements([last]) == {last};
    assert last !in Elements(front);
  }

  lemma OldestFirstNoRepeats<K(!new), V>(t: map<K, Slot<V>>, p: seq<K>)
    requires OldestFirst(t, p)
    ensures NoRepeats(p)
  {
  }

  lemma MinusTwice<K, V>(t: map<K, Slot<V>>, a: set<K>, b: set<K>)
    ensures t - a - b == t - (a + b)
  {
  }
}
