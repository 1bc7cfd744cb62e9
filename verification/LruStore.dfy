/** The keyed store of `cache.rs` as an object: entries with recency stamps, the byte count
    and the sequence counter, updated in place. Each method is proved against the shelf
    operation of the same meaning. */
module LruStore {
  import opened Prelude
  import opened Sets
  import opened Lru
  import opened Recency
  import S = Shelf

  class LruStore<K(==, !new), V> {
    var slots: map<K, Slot<V>>
    var bytesUsed: nat
    var sequence: nat

    ghost function Shelf(): S.Shelf<K, V>
      reads this
    {
      S.Shelf(slots, bytesUsed, sequence)
    }

    constructor ()
      ensures Shelf() == S.Shelf(map[], 0, 0)
    {
      slots := map[];
      bytesUsed := 0;
      sequence := 0;
    }

    /** Takes one key out and gives its weight back. */
    method Remove(k: K) returns (taken: Option<Slot<V>>)
      modifies this
      ensures Shelf() == S.Drop(old(Shelf()), {k})
      ensures taken == if k in old(slots) then Some(old(slots)[k]) else None
    {
      OneWeight(slots, k);
      if k in slots {
        taken := Some(slots[k]);
        bytesUsed := SatSub(bytesUsed, slots[k].weight);
        slots := slots - {k};
      } else {
        assert slots - {k} == slots;
        taken := None;
      }
    }

    /** Takes out every key of a set, one at a time, and reports them in the order taken. */
    method RemoveAll(keys: set<K>) returns (removed: seq<K>, bytes: nat)
      requires bytesUsed == Weight(slots) && keys <= slots.Keys
      modifies this
      ensures Shelf() == S.Drop(old(Shelf()), keys)
      ensures NoRepeats(removed) && Elements(removed) == keys
      ensures bytes == Weight(S.Taken(old(slots), keys))
    {
      ghost var h := Shelf();
      removed, bytes := [], 0;
      var rest := keys;
      assert h.slots - {} == h.slots && S.Taken(h.slots, {}) == map[];
      while rest != {}
        invariant rest <= keys && NoRepeats(removed) && Elements(removed) == keys - rest
        invariant Shelf() == S.Drop(h, keys - rest)
        invariant bytes == Weight(S.Taken(h.slots, keys - rest))
        decreases |rest|
      {
        var k :| k in rest;
        TakeOneMore(h.slots, keys - rest, k);
        S.DropTwice(h, keys - rest, {k});
        assert keys - rest + {k} == keys - (rest - {k});
        var taken := Remove(k);
        bytes := bytes + taken.value.weight;
        AppendFresh(removed, k);
        removed := removed + [k];
        rest := rest - {k};
      }
      assert keys - rest == keys;
    }

    /** Takes out the keys of a list, in its order. */
    method RemoveListed(list: seq<K>)
      requires bytesUsed == Weight(slots)
      modifies this
      ensures Shelf() == S.Drop(old(Shelf()), Elements(list))
    {
      ghost var h := Shelf();
      assert h.slots - Elements(list[..0]) == h.slots && S.Taken(h.slots, {}) == map[];
      for i := 0 to |list|
        invariant Shelf() == S.Drop(h, Elements(list[..i])) && bytesUsed == Weight(slots)
      {
        S.DropWeight(Shelf().slots, {list[i]});
        S.DropTwice(h, Elements(list[..i]), {list[i]});
        assert list[..i + 1] == list[..i] + [list[i]];
        ElementsOfAppend(list[..i], [list[i]]);
        assert Elements([list[i]]) == {list[i]};
        var _ := Remove(list[i]);
      }
      assert list[..|list|] == list;
    }

    /** The least recently used key. */
    method Oldest() returns (found: Option<K>)
      requires Distinct(slots)
      ensures found.None? <==> slots == map[]
      ensures found.Some? ==> found.value in slots
                              && forall j :: j in slots && j != found.value ==>
                                   slots[found.value].stamp < slots[j].stamp
    {
      if slots.Keys == {} {
        found := None;
      } else {
        var k := OldestIn(slots, slots.Keys);
        found := Some(k);
      }
    }

    /** `State::next_sequence`, with the renumbering loop at the 64-bit limit. */
    method NextSequence() returns (number: nat)
      requires Distinct(slots)
      modifies this
      ensures Shelf() == S.Tick(old(Shelf()))
      ensures number == sequence
    {
      if sequence == U64_MAX {
        Renumber();
        sequence := |slots|;
      }
      sequence := sequence + 1;
      number := sequence;
    }

    /** Rewrites the stamps as 0, 1, 2, ... in recency order. */
    method Renumber()
      requires Distinct(slots)
      modifies this`slots
      ensures slots == S.Renumbered(old(slots)) && |slots| == |old(slots)|
    {
      ghost var before := slots;
      var order := InOrder(slots);
      for index := 0 to |order|
        invariant slots == RenumberedUpTo(before, order, index)
      {
        RenumberOneMore(before, order, index);
        slots := slots[order[index] := slots[order[index]].(stamp := index)];
      }
      AllRenumbered(before, order);
      SameKeysSize(slots, before);
    }

    /** The eviction loop of `insert_entry`: removes the least recently used key until one
        more item fits. The branch for an empty store is never taken. */
    method EvictFor(extra: nat, maxCount: nat, maxBytes: nat) returns (evicted: seq<K>)
      requires bytesUsed == Weight(slots) && Distinct(slots)
      requires 0 < maxCount && extra <= maxBytes < USIZE_MAX
      modifies this
      ensures Shelf() == S.Drop(old(Shelf()), Elements(evicted))
      ensures IsShortestPrefix(old(slots), Elements(evicted), Room(extra, maxCount, maxBytes))
      ensures OldestFirst(old(slots), evicted)
    {
      hide NoShorterFits, OldestFirst, IsPrefix, Weight, Elements;
      ghost var h, room := Shelf(), Room(extra, maxCount, maxBytes);
      evicted := [];
      EvictionStarts(h, room);
      while |slots| >= maxCount || SatAdd(bytesUsed, extra) > maxBytes
        invariant Evicting(h, evicted, room, Shelf())
        decreases |slots|
      {
        assert !Fits(slots, room);
        var lru := Oldest();
        if lru.None? {
          assert false;
        } else {
          EvictOneMore(h, evicted, room, Shelf(), lru.value);
          var _ := Remove(lru.value);
          evicted := evicted + [lru.value];
        }
      }
    }

    /** Makes a resident key the most recent. */
    method Touch(k: K)
      requires Distinct(slots) && k in slots
      modifies this
      ensures Shelf() == S.Touch(old(Shelf()), k)
    {
      var slot := slots[k];
      var access := NextSequence();
      slots := slots[k := slot.(stamp := access)];
    }

    /** Adds a new most recent key. */
    method Put(k: K, v: V, weight: nat)
      requires Distinct(slots)
      modifies this
      ensures Shelf() == S.Put(old(Shelf()), k, v, weight)
    {
      var access := NextSequence();
      bytesUsed := SatAdd(bytesUsed, weight);
      slots := slots[k := Slot(v, access, weight)];
    }
  }

  // ---------------------------------------------------------------- loop lemmas

  lemma OneWeight<K, V>(slots: map<K, Slot<V>>, k: K)
    ensures Weight(S.Taken(slots, {k})) == if k in slots then slots[k].weight else 0
  {
    var taken := S.Taken(slots, {k});
    if k in slots {
      WeightRemove(taken, k);
      assert taken - {k} == map[];
    } else {
      assert taken == map[];
    }
  }

  lemma TakeOneMore<K, V>(slots: map<K, Slot<V>>, keys: set<K>, k: K)
    requires k in slots && k !in keys
    ensures Weight(S.Taken(slots, keys + {k})) == Weight(S.Taken(slots, keys)) + slots[k].weight
    ensures k in slots - keys && (slots - keys)[k] == slots[k]
  {
    var more := S.Taken(slots, keys + {k});
    WeightRemove(more, k);
    assert more - {k} == S.Taken(slots, keys);
  }

  lemma AppendFresh<T>(s: seq<T>, x: T)
    requires NoRepeats(s) && x !in Elements(s)
    ensures NoRepeats(s + [x]) && Elements(s + [x]) == Elements(s) + {x}
  {
    ElementsOfAppend(s, [x]);
    assert Elements([x]) == {x};
  }

  /** Progress of the eviction loop: `now` is what is left of `h`. */
  ghost predicate Evicting<K(!new), V>(h: S.Shelf<K, V>, evicted: seq<K>, room: Room, now: S.Shelf<K, V>) {
    && now == S.Drop(h, Elements(evicted))
    && now.bytes == Weight(now.slots) && Distinct(now.slots)
    && OldestFirst(h.slots, evicted)
    && IsPrefix(h.slots, Elements(evicted)) && NoShorterFits(h.slots, Elements(evicted), room)
  }

  lemma EvictionStarts<K(!new), V>(h: S.Shelf<K, V>, room: Room)
    requires h.bytes == Weight(h.slots) && Distinct(h.slots)
    ensures Evicting(h, [], room, h)
  {
    assert Elements<K>([]) == {};
    assert h.slots - {} == h.slots && S.Taken(h.slots, {}) == map[];
  }

  lemma EvictOneMore<K(!new), V>(h: S.Shelf<K, V>, evicted: seq<K>, room: Room, now: S.Shelf<K, V>, k: K)
    requires h.bytes == Weight(h.slots) && Evicting(h, evicted, room, now) && !Fits(now.slots, room)
    requires k in now.slots && forall j :: j in now.slots && j != k ==> now.slots[k].stamp < now.slots[j].stamp
    ensures Evicting(h, evicted + [k], room, S.Drop(now, {k}))
  {
    assert forall j :: j in h.slots && j !in Elements(evicted) ==> j in now.slots;
    ExtendPrefix(h.slots, Elements(evicted), k, room);
    OrderOneMore(h.slots, evicted, k);
    DropOneMore(h, Elements(evicted), k);
  }

  lemma OrderOneMore<K(!new), V>(slots: map<K, Slot<V>>, evicted: seq<K>, k: K)
    requires OldestFirst(slots, evicted) && IsPrefix(slots, Elements(evicted))
    requires k in slots && k !in Elements(evicted)
    ensures OldestFirst(slots, evicted + [k])
    ensures Elements(evicted + [k]) == Elements(evicted) + {k}
  {
    ElementsOfAppend(evicted, [k]);
    assert Elements([k]) == {k};
    assert forall i :: 0 <= i < |evicted| ==> evicted[i] in Elements(evicted);
  }

  lemma DropOneMore<K, V>(h: S.Shelf<K, V>, dropped: set<K>, k: K)
    requires h.bytes == Weight(h.slots)
    ensures S.Drop(S.Drop(h, dropped), {k}) == S.Drop(h, dropped + {k})
    ensures S.Drop(h, dropped + {k}).bytes == Weight(S.Drop(h, dropped + {k}).slots)
  {
    S.DropTwice(h, dropped, {k});
    S.DropWeight(h.slots, dropped + {k});
  }

  lemma RenumberOneMore<K(!new), V>(before: map<K, Slot<V>>, order: seq<K>, n: nat)
    requires OldestFirst(before, order) && Elements(order) == before.Keys && n < |order|
    ensures order[n] in before
    ensures var now := RenumberedUpTo(before, order, n);
            order[n] in now && now[order[n] := now[order[n]].(stamp := n)] == RenumberedUpTo(before, order, n + 1)
  {
    RankOfNth(before, order, n);
    assert order[..n + 1] == order[..n] + [order[n]];
  }

  ghost function RenumberedUpTo<K, V>(before: map<K, Slot<V>>, order: seq<K>, n: nat): map<K, Slot<V>>
    requires n <= |order|
  {
    map k | k in before :: if k in order[..n] then before[k].(stamp := S.Rank(before, k)) else before[k]
  }

  /** The n-th key in recency order has rank n. */
  lemma RankOfNth<K(!new), V>(before: map<K, Slot<V>>, order: seq<K>, n: nat)
    requires OldestFirst(before, order) && Elements(order) == before.Keys && n < |order|
    ensures order[n] in before && S.Rank(before, order[n]) == n
    ensures order[n] !in order[..n]
  {
    var k := order[n];
    assert k in Elements(order);
    OldestFirstNoRepeats(before, order);
    DistinctCount(order[..n]);
    assert S.Older(before, k) == Elements(order[..n]) by {
      forall j | j in S.Older(before, k)
        ensures j in Elements(order[..n])
      {
        assert j in Elements(order);
        var i :| 0 <= i < |order| && order[i] == j;
        assert order[..n][i] == j;
      }
    }
  }

  lemma AllRenumbered<K(!new), V>(before: map<K, Slot<V>>, order: seq<K>)
    requires Elements(order) == before.Keys
    ensures RenumberedUpTo(before, order, |order|) == S.Renumbered(before)
  {
    assert order[..|order|] == order;
    assert forall k :: k in before ==> k in Elements(order);
  }
}
