/** A bounded keyed store with exact byte accounting and a recency clock: the part of the
    memory cache's `State` that holds entries, generic in keys and values. */
module Shelf {
  import opened Prelude
  import opened Lru
  import opened Sets

  datatype Shelf<K, V> = Shelf(slots: map<K, Slot<V>>, bytes: nat, clock: nat)

  datatype Limits = Limits(maxCount: nat, maxBytes: nat)

  ghost predicate StampsUpTo<K, V>(slots: map<K, Slot<V>>, clock: nat) {
    forall k :: k in slots ==> slots[k].stamp <= clock
  }

  /** Every slot weighs at least two, so slots cannot outnumber bytes. */
  ghost predicate Weighty<K, V>(slots: map<K, Slot<V>>) {
    forall k :: k in slots ==> 2 <= slots[k].weight
  }

  /** The byte count is the exact sum, both limits hold, stamps are distinct and no larger
      than the clock. */
  ghost predicate Valid<K(!new), V>(h: Shelf<K, V>, limits: Limits) {
    && h.bytes == Weight(h.slots) <= limits.maxBytes
    && |h.slots| <= limits.maxCount
    && Distinct(h.slots)
    && StampsUpTo(h.slots, h.clock) && h.clock <= U64_MAX
    && Weighty(h.slots)
  }

  // ---------------------------------------------------------------- operations

  ghost function Taken<K, V>(slots: map<K, Slot<V>>, keys: set<K>): map<K, Slot<V>> {
    map k | k in keys && k in slots :: slots[k]
  }

  /** Removes keys and gives their weight back. */
  ghost function Drop<K, V>(h: Shelf<K, V>, keys: set<K>): Shelf<K, V> {
    h.(slots := h.slots - keys, bytes := SatSub(h.bytes, Weight(Taken(h.slots, keys))))
  }

  ghost function Older<K, V>(slots: map<K, Slot<V>>, k: K): set<K>
    requires k in slots
  {
    set j | j in slots && slots[j].stamp < slots[k].stamp
  }

  /** Position in recency order. */
  ghost function Rank<K, V>(slots: map<K, Slot<V>>, k: K): nat
    requires k in slots
  {
    |Older(slots, k)|
  }

  ghost function Renumbered<K, V>(slots: map<K, Slot<V>>): map<K, Slot<V>> {
    map k | k in slots :: slots[k].(stamp := Rank(slots, k))
  }

  /** `State::next_sequence`; the number handed out is the new clock. */
  ghost function Tick<K, V>(h: Shelf<K, V>): Shelf<K, V> {
    if h.clock == U64_MAX
    then h.(slots := Renumbered(h.slots), clock := |h.slots| + 1)
    else h.(clock := h.clock + 1)
  }

  /** Makes `k` the most recent. */
  ghost function Touch<K, V>(h: Shelf<K, V>, k: K): Shelf<K, V>
    requires k in h.slots
  {
    var t := Tick(h);
    t.(slots := t.slots[k := h.slots[k].(stamp := t.clock)])
  }

  /** Adds a new most recent slot. */
  ghost function Put<K, V>(h: Shelf<K, V>, k: K, v: V, weight: nat): Shelf<K, V> {
    var t := Tick(h);
    Shelf(t.slots[k := Slot(v, t.clock, weight)], SatAdd(t.bytes, weight), t.clock)
  }

  // ---------------------------------------------------------------- removal

  lemma DropWeight<K, V>(slots: map<K, Slot<V>>, keys: set<K>)
    ensures Weight(slots) == Weight(slots - keys) + Weight(Taken(slots, keys))
  {
    var part := keys * slots.Keys;
    WeightSplit(slots, part);
    assert slots - part == slots - keys;
    assert Taken(slots, keys) == map k | k in part :: slots[k];
  }

  lemma DropSlots<K, V>(h: Shelf<K, V>, keys: set<K>)
    ensures Drop(h, keys).slots == h.slots - keys
  {
  }

  /** Removal gives back exactly what was charged. */
  lemma DropKeepsValid<K(!new), V>(h: Shelf<K, V>, keys: set<K>, limits: Limits)
    requires Valid(h, limits)
    ensures Valid(Drop(h, keys), limits)
    ensures Drop(h, keys).bytes == h.bytes - Weight(Taken(h.slots, keys))
  {
    DropWeight(h.slots, keys);
    SubsetSize((h.slots - keys).Keys, h.slots.Keys);
    assert |h.slots - keys| == |(h.slots - keys).Keys|;
  }

  lemma DropTwice<K, V>(h: Shelf<K, V>, a: set<K>, b: set<K>)
    requires h.bytes == Weight(h.slots)
    ensures Drop(Drop(h, a), b) == Drop(h, a + b)
  {
    DropWeight(h.slots, a);
    DropWeight(h.slots - a, b);
    DropWeight(h.slots, a + b);
    assert h.slots - a - b == h.slots - (a + b);
  }

  // ---------------------------------------------------------------- the recency clock

  lemma RankOrder<K, V>(slots: map<K, Slot<V>>, a: K, b: K)
    requires a in slots && b in slots
    ensures slots[a].stamp < slots[b].stamp <==> Rank(slots, a) < Rank(slots, b)
    ensures Rank(slots, a) < |slots|
  {
    SubsetSize(Older(slots, a) + {a}, slots.Keys);
    if slots[a].stamp < slots[b].stamp {
      SubsetSize(Older(slots, a) + {a}, Older(slots, b));
    } else {
      SubsetSize(Older(slots, b), Older(slots, a));
    }
  }

  /** Renumbering keeps the relative order of every pair of slots, so the next victim is the
      same before and after it. */
  lemma RenumberKeepsOrder<K(!new), V>(slots: map<K, Slot<V>>)
    ensures SameOrder(slots, Renumbered(slots))
    ensures Distinct(slots) ==> Distinct(Renumbered(slots))
    ensures StampsUpTo(Renumbered(slots), |slots|)
    ensures Weight(Renumbered(slots)) == Weight(slots)
  {
    forall a, b | a in slots && b in slots
      ensures slots[a].stamp < slots[b].stamp <==> Rank(slots, a) < Rank(slots, b)
    {
      RankOrder(slots, a, b);
    }
    forall a | a in slots
      ensures Rank(slots, a) < |slots|
    {
      RankOrder(slots, a, a);
    }
    WeightOfSameWeights(slots, Renumbered(slots));
  }

  /** `t` is `h` after handing out a number: above every stamp, disturbing no order. */
  ghost predicate Ticked<K(!new), V>(h: Shelf<K, V>, t: Shelf<K, V>) {
    && t.bytes == h.bytes
    && SameOrder(h.slots, t.slots)
    && (forall k :: k in t.slots ==> t.slots[k].stamp < t.clock)
    && t.clock <= U64_MAX
    && forall k :: k in h.slots ==> t.slots[k].value == h.slots[k].value
  }

  lemma TickKeepsOrder<K(!new), V>(h: Shelf<K, V>, limits: Limits)
    requires Valid(h, limits) && limits.maxBytes < U64_MAX
    ensures Ticked(h, Tick(h))
  {
    if h.clock == U64_MAX {
      RenumberKeepsOrder(h.slots);
      CountBelowWeight(h.slots);
      RankBelowCount(h.slots);
    }
  }

  lemma TickedKeepsValid<K(!new), V>(h: Shelf<K, V>, t: Shelf<K, V>, limits: Limits)
    requires Valid(h, limits) && Ticked(h, t)
    ensures Valid(t, limits)
  {
    WeightOfSameWeights(h.slots, t.slots);
    assert |t.slots.Keys| == |h.slots.Keys|;
    assert Distinct(t.slots) by {
      forall a, b | a in t.slots && b in t.slots && a != b
        ensures t.slots[a].stamp != t.slots[b].stamp
      {
        assert h.slots[a].stamp < h.slots[b].stamp || h.slots[b].stamp < h.slots[a].stamp;
      }
    }
  }

  lemma RankBelowCount<K, V>(slots: map<K, Slot<V>>)
    ensures forall k :: k in slots ==> Renumbered(slots)[k].stamp < |slots|
  {
    forall a | a in slots
      ensures Rank(slots, a) < |slots|
    {
      RankOrder(slots, a, a);
    }
  }

  /** The same slots in the same order, except that `k` is now the most recent. */
  ghost predicate MovedToFront<K(!new), V>(before: map<K, Slot<V>>, after: map<K, Slot<V>>, k: K) {
    && k in before && after.Keys == before.Keys
    && (forall j :: j in before ==> after[j].value == before[j].value && after[j].weight == before[j].weight)
    && (forall j :: j in before && j != k ==> after[j].stamp < after[k].stamp)
    && forall a, b :: a in before && b in before && a != k && b != k ==>
         (before[a].stamp < before[b].stamp <==> after[a].stamp < after[b].stamp)
  }

  lemma TouchKeepsValid<K(!new), V>(h: Shelf<K, V>, k: K, limits: Limits)
    requires Valid(h, limits) && limits.maxBytes < U64_MAX && k in h.slots
    ensures Valid(Touch(h, k), limits)
    ensures MovedToFront(h.slots, Touch(h, k).slots, k)
  {
    TickKeepsOrder(h, limits);
    TickedTouch(h, Tick(h), k, limits);
  }

  lemma TickedTouch<K(!new), V>(h: Shelf<K, V>, t: Shelf<K, V>, k: K, limits: Limits)
    requires Valid(h, limits) && k in h.slots && Ticked(h, t)
    ensures Valid(t.(slots := t.slots[k := h.slots[k].(stamp := t.clock)]), limits)
    ensures MovedToFront(h.slots, t.slots[k := h.slots[k].(stamp := t.clock)], k)
  {
    TickedKeepsValid(h, t, limits);
    RestampKeepsWeight(t.slots, k, h.slots[k].(stamp := t.clock));
    RestampMoves(h, t, k);
  }

  lemma RestampKeepsWeight<K, V>(slots: map<K, Slot<V>>, k: K, slot: Slot<V>)
    requires k in slots && slot.weight == slots[k].weight
    ensures Weight(slots[k := slot]) == Weight(slots)
    ensures slots[k := slot].Keys == slots.Keys && |slots[k := slot]| == |slots|
  {
    assert slots[k := slot].Keys == slots.Keys;
    WeightOfSameWeights(slots[k := slot], slots);
    assert |slots[k := slot].Keys| == |slots.Keys|;
  }

  lemma RestampMoves<K(!new), V>(h: Shelf<K, V>, t: Shelf<K, V>, k: K)
    requires k in h.slots && Ticked(h, t)
    ensures MovedToFront(h.slots, t.slots[k := h.slots[k].(stamp := t.clock)], k)
  {
  }

  // ---------------------------------------------------------------- insertion

  /** Exactly `gone` left, `k` came as the most recent, and the survivors kept their values
      and their order. */
  ghost predicate PutOver<K(!new), V>(before: map<K, Slot<V>>, after: map<K, Slot<V>>, k: K, v: V, weight: nat,
                                      gone: set<K>) {
    && after.Keys == before.Keys - gone + {k}
    && after[k].value == v && after[k].weight == weight
    && (forall j :: j in after && j != k ==>
          j in before && after[j].value == before[j].value && after[j].weight == before[j].weight
          && after[j].stamp < after[k].stamp)
    && forall a, b :: a in after && b in after && a != k && b != k ==>
         a in before && b in before && (before[a].stamp < before[b].stamp <==> after[a].stamp < after[b].stamp)
  }

  lemma AddKeepsValid<K(!new), V>(t: Shelf<K, V>, k: K, v: V, weight: nat, limits: Limits)
    requires Valid(t, limits) && limits.maxBytes < U64_MAX && 2 <= weight
    requires k !in t.slots && forall j :: j in t.slots ==> t.slots[j].stamp < t.clock
    requires Fits(t.slots, Room(weight, limits.maxCount, limits.maxBytes))
    ensures Valid(Shelf(t.slots[k := Slot(v, t.clock, weight)], SatAdd(t.bytes, weight), t.clock), limits)
  {
    AddCounts(t.slots, k, Slot(v, t.clock, weight));
  }

  lemma AddCounts<K, V>(slots: map<K, Slot<V>>, k: K, slot: Slot<V>)
    requires k !in slots
    ensures Weight(slots[k := slot]) == Weight(slots) + slot.weight
    ensures |slots[k := slot]| == |slots| + 1
  {
    WeightInsert(slots, k, slot);
    assert slots[k := slot].Keys == slots.Keys + {k};
    assert |slots[k := slot].Keys| == |slots.Keys| + 1;
  }

  lemma TickedPut<K(!new), V>(d: Shelf<K, V>, t: Shelf<K, V>, k: K, v: V, weight: nat, limits: Limits)
    requires Valid(d, limits) && limits.maxBytes < U64_MAX && 2 <= weight
    requires Ticked(d, t) && k !in d.slots
    requires Fits(d.slots, Room(weight, limits.maxCount, limits.maxBytes))
    ensures Valid(Shelf(t.slots[k := Slot(v, t.clock, weight)], SatAdd(t.bytes, weight), t.clock), limits)
  {
    TickedKeepsValid(d, t, limits);
    assert |t.slots.Keys| == |d.slots.Keys|;
    AddKeepsValid(t, k, v, weight, limits);
  }

  /** With room made first, insertion keeps both limits and the exact byte count. */
  lemma PutKeepsValid<K(!new), V>(h: Shelf<K, V>, gone: set<K>, k: K, v: V, weight: nat, limits: Limits)
    requires Valid(h, limits) && limits.maxBytes < U64_MAX && 2 <= weight
    requires k in h.slots ==> k in gone
    requires Fits(h.slots - gone, Room(weight, limits.maxCount, limits.maxBytes))
    ensures Valid(Put(Drop(h, gone), k, v, weight), limits)
    ensures PutOver(h.slots, Put(Drop(h, gone), k, v, weight).slots, k, v, weight, gone)
  {
    DropKeepsValid(h, gone, limits);
    var d := Drop(h, gone);
    TickKeepsOrder(d, limits);
    TickedPut(d, Tick(d), k, v, weight, limits);
    TickedPutOver(h.slots, d, Tick(d), gone, k, v, weight);
  }

  lemma TickedPutOver<K(!new), V>(before: map<K, Slot<V>>, d: Shelf<K, V>, t: Shelf<K, V>, gone: set<K>, k: K, v: V,
                                  weight: nat)
    requires d.slots == before - gone && Ticked(d, t)
    requires k in before ==> k in gone
    ensures PutOver(before, t.slots[k := Slot(v, t.clock, weight)], k, v, weight, gone)
  {
  }
}
