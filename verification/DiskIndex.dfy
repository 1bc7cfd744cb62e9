/** The disk `State` of `disk.rs` as an object: records with access stamps and sizes, the
    tag index, the byte count and the sequence counter. Generic in keys and tags. */
module DiskIndex {
  import opened Prelude
  import opened Sets
  import opened Lru
  import opened Recency
  import opened Directory
  import S = Shelf
  import T = TagIndex
  import L = LruStore

  /** Where a record is; its size and access number are the weight and stamp of its slot. */
  datatype RecordInfo<G> = RecordInfo(name: Name, inode: nat, tags: seq<G>)

  ghost function Carried<K, G>(records: map<K, Slot<RecordInfo<G>>>): map<K, seq<G>> {
    map k | k in records :: records[k].value.tags
  }

  class DiskIndex<K(==, !new), G(==, !new)> {
    var records: map<K, Slot<RecordInfo<G>>>
    var tags: map<G, set<K>>
    var bytesUsed: nat
    var sequence: nat

    ghost function Shelf(): S.Shelf<K, RecordInfo<G>>
      reads this
    {
      S.Shelf(records, bytesUsed, sequence)
    }

    /** The tag index is exact. */
    ghost predicate Indexed()
      reads this
    {
      T.Exact(tags, Carried(records))
    }

    constructor ()
      ensures Shelf() == S.Shelf(map[], 0, 0) && Indexed()
    {
      records := map[];
      tags := map[];
      bytesUsed := 0;
      sequence := 0;
    }

    /** `State::next_sequence`. */
    method NextSequence() returns (number: nat)
      modifies this`sequence
      ensures sequence == number == SatAdd(old(sequence), 1)
    {
      sequence := SatAdd(sequence, 1);
      number := sequence;
    }

    /** `State::insert`. Every caller has removed the key first. */
    method Insert(k: K, info: RecordInfo<G>, stamp: nat, size: nat)
      requires Indexed() && k !in records
      modifies this`records, this`tags, this`bytesUsed
      ensures Indexed()
      ensures records == old(records)[k := Slot(info, stamp, size)]
      ensures bytesUsed == SatAdd(old(bytesUsed), size)
    {
      bytesUsed := SatAdd(bytesUsed, size);
      ghost var before := tags;
      for i := 0 to |info.tags|
        modifies this`tags
        invariant T.Adding(before, tags, k, info.tags[..i])
      {
        assert info.tags[..i + 1] == info.tags[..i] + [info.tags[i]];
        T.TagOneMore(before, tags, k, info.tags[..i], info.tags[i]);
        tags := T.Tag(tags, info.tags[i], k);
      }
      assert info.tags[..|info.tags|] == info.tags;
      ghost var carried := Carried(records);
      records := records[k := Slot(info, stamp, size)];
      assert Carried(records) == carried[k := info.tags];
      InsertedExact(before, tags, carried, k, info.tags);
    }

    /** `State::remove`. */
    method Remove(k: K) returns (taken: Option<Slot<RecordInfo<G>>>)
      requires Indexed()
      modifies this`records, this`tags, this`bytesUsed
      ensures Indexed()
      ensures Shelf() == S.Drop(old(Shelf()), {k})
      ensures taken == if k in old(records) then Some(old(records)[k]) else None
    {
      L.OneWeight(records, k);
      if k !in records {
        assert records - {k} == records;
        return None;
      }
      var record := records[k];
      ghost var carried := Carried(records);
      records := records - {k};
      bytesUsed := SatSub(bytesUsed, record.weight);
      ghost var before := tags;
      for i := 0 to |record.value.tags|
        modifies this`tags
        invariant T.Removing(before, tags, k, record.value.tags[..i])
      {
        assert record.value.tags[..i + 1] == record.value.tags[..i] + [record.value.tags[i]];
        T.UntagOneMore(before, tags, k, record.value.tags[..i], record.value.tags[i]);
        tags := T.Untag(tags, record.value.tags[i], k);
      }
      assert record.value.tags[..|record.value.tags|] == record.value.tags;
      assert Carried(records) == carried - {k};
      RemovedExact(before, tags, carried, k);
      taken := Some(record);
    }

    /** The keys purge-by-tag acts on: exactly the tagged records. */
    method KeysTagged(tag: G) returns (keys: set<K>)
      requires Indexed()
      ensures keys == set k | k in records && tag in records[k].value.tags
    {
      keys := if tag in tags then tags[tag] else {};
      forall k
        ensures k in keys <==> k in records && tag in records[k].value.tags
      {
        assert T.Tagged(tags, tag, k) <==> k in Carried(records) && tag in Carried(records)[k];
      }
    }

    // -------------------------------------------------------------- admission

    /** The total size of some records, in saturating arithmetic. */
    method SizeOf(keys: set<K>) returns (total: nat)
      requires keys <= records.Keys && Weight(records) <= U64_MAX
      ensures total == Weight(S.Taken(records, keys))
    {
      total := 0;
      var rest := keys;
      ghost var done: set<K> := {};
      assert S.Taken(records, {}) == map[];
      while rest != {}
        invariant done + rest == keys && done !! rest
        invariant total == Weight(S.Taken(records, done))
        decreases |rest|
      {
        var k :| k in rest;
        L.TakeOneMore(records, done, k);
        S.DropWeight(records, done + {k});
        total := SatAdd(total, records[k].weight);
        MoveOne(done, rest, k);
        rest, done := rest - {k}, done + {k};
      }
      assert done == keys;
    }

    /** The least recently accessed record outside a set. */
    method OldestOutside(keys: set<K>) returns (found: Option<K>)
      requires Distinct(records)
      ensures found.None? <==> records.Keys <= keys
      ensures found.Some? ==> found.value in records && found.value !in keys
                              && forall j :: j in records && j !in keys && j != found.value ==>
                                   records[found.value].stamp < records[j].stamp
    {
      var others := records.Keys - keys;
      if others == {} {
        assert forall k :: k in records && k !in keys ==> k in others;
        return None;
      }
      var k := OldestIn(records, others);
      found := Some(k);
    }

    /** `admission_victims`: the mandatory records and the shortest least recently accessed
        prefix of the others that makes room. The quota error inside the loop is never
        reached: the only failure is a record larger than the whole quota. */
    method AdmissionVictims(mandatory: set<K>, size: nat, maxFiles: nat, maxBytes: nat)
      returns (victims: Option<set<K>>)
      requires bytesUsed == Weight(records) && Distinct(records) && mandatory <= records.Keys
      requires 0 < maxFiles && bytesUsed <= maxBytes < U64_MAX
      ensures victims.None? <==> size > maxBytes
      ensures victims.Some? ==> mandatory <= victims.value <= records.Keys
      ensures victims.Some? ==>
                IsShortestPrefix(records - mandatory, victims.value - mandatory, Room(size, maxFiles, maxBytes))
    {
      if size > maxBytes {
        return None;
      }
      var chosen := mandatory;
      ghost var room := Room(size, maxFiles, maxBytes);
      hide NoShorterFits, IsPrefix, IsShortestPrefix, Fits, Weight, S.Taken;
      NothingChosen(records, mandatory, room);
      while true
        invariant Choosing(records, mandatory, chosen, room)
        decreases |records.Keys - chosen|
      {
        var removed := SizeOf(chosen);
        AdmissionTest(records, chosen, room);
        if SatSub(|records|, |chosen|) < maxFiles && SatAdd(SatSub(bytesUsed, removed), size) <= maxBytes {
          break;
        }
        var next := OldestOutside(chosen);
        if next.None? {
          EmptyFits(records, chosen, room);
          assert false;
        } else {
          ChooseOneMore(records, mandatory, chosen, next.value, room);
          chosen := chosen + {next.value};
        }
      }
      ChosenSuffices(records, mandatory, chosen, room);
      victims := Some(chosen);
    }
  }

  // ---------------------------------------------------------------- lemmas

  lemma InsertedExact<K(!new), G(!new)>(before: map<G, set<K>>, now: map<G, set<K>>, carried: map<K, seq<G>>, k: K,
                                        added: seq<G>)
    requires T.Exact(before, carried) && T.Adding(before, now, k, added) && k !in carried
    ensures T.Exact(now, carried[k := added])
  {
    assert forall tag :: !T.Tagged(before, tag, k);
  }

  lemma RemovedExact<K(!new), G(!new)>(before: map<G, set<K>>, now: map<G, set<K>>, carried: map<K, seq<G>>, k: K)
    requires k in carried && T.Exact(before, carried) && T.Removing(before, now, k, carried[k])
    ensures T.Exact(now, carried - {k})
  {
  }

  /** Progress of the victim loop. */
  ghost predicate Choosing<K(!new), V>(records: map<K, Slot<V>>, mandatory: set<K>, chosen: set<K>, room: Room) {
    && mandatory <= chosen <= records.Keys
    && IsPrefix(records - mandatory, chosen - mandatory) && NoShorterFits(records - mandatory, chosen - mandatory, room)
  }

  lemma NothingChosen<K(!new), V>(records: map<K, Slot<V>>, mandatory: set<K>, room: Room)
    requires mandatory <= records.Keys
    ensures Choosing(records, mandatory, mandatory, room)
  {
    assert mandatory - mandatory == {};
  }

  lemma ChooseOneMore<K(!new), V>(records: map<K, Slot<V>>, mandatory: set<K>, chosen: set<K>, k: K, room: Room)
    requires Choosing(records, mandatory, chosen, room) && !Fits(records - chosen, room)
    requires k in records && k !in chosen
    requires forall j :: j in records && j !in chosen && j != k ==> records[k].stamp < records[j].stamp
    ensures Choosing(records, mandatory, chosen + {k}, room)
    ensures |records.Keys - (chosen + {k})| < |records.Keys - chosen|
  {
    OthersLeft(records, mandatory, chosen);
    ExtendPrefix(records - mandatory, chosen - mandatory, k, room);
    assert chosen - mandatory + {k} == chosen + {k} - mandatory;
    assert records.Keys - (chosen + {k}) == records.Keys - chosen - {k};
  }

  lemma OthersLeft<K, V>(records: map<K, Slot<V>>, mandatory: set<K>, chosen: set<K>)
    requires mandatory <= chosen
    ensures records - mandatory - (chosen - mandatory) == records - chosen
  {
  }

  /** The saturating test of the victim loop decides whether the record fits. */
  lemma AdmissionTest<K, V>(records: map<K, Slot<V>>, chosen: set<K>, room: Room)
    requires chosen <= records.Keys && Weight(records) <= room.maxWeight < U64_MAX
    ensures Fits(records - chosen, room) <==>
              SatSub(|records|, |chosen|) < room.maxCount
              && SatAdd(SatSub(Weight(records), Weight(S.Taken(records, chosen))), room.extra) <= room.maxWeight
  {
    RemoveKeysSize(records, chosen);
    assert chosen * records.Keys == chosen;
    S.DropWeight(records, chosen);
  }

  lemma ChosenSuffices<K(!new), V>(records: map<K, Slot<V>>, mandatory: set<K>, chosen: set<K>, room: Room)
    requires Choosing(records, mandatory, chosen, room) && Fits(records - chosen, room)
    ensures IsShortestPrefix(records - mandatory, chosen - mandatory, room)
  {
    OthersLeft(records, mandatory, chosen);
  }

  /** What `State::insert` leaves behind when the key may be present already. */
  ghost function RawBytes<K, V>(h: S.Shelf<K, V>, size: nat): nat {
    SatAdd(h.bytes, size)
  }

  /** `State::insert` keeps the byte count exact if and only if the key was absent, which
      is why every caller removes it first. */
  lemma InsertExactIffAbsent<K, V>(h: S.Shelf<K, V>, k: K, slot: Slot<V>)
    requires h.bytes == Weight(h.slots) && h.bytes + slot.weight <= U64_MAX && S.Weighty(h.slots)
    ensures RawBytes(h, slot.weight) == Weight(h.slots[k := slot]) <==> k !in h.slots
  {
    if k in h.slots {
      WeightRemove(h.slots, k);
      WeightInsert(h.slots - {k}, k, slot);
      assert (h.slots - {k})[k := slot] == h.slots[k := slot];
    } else {
      WeightInsert(h.slots, k, slot);
    }
  }
}
