/** How the memory table, the disk table and the directory hang together, generic in keys,
    tags and values: same keys, same recency order, and one complete file per record. */
module Ledger {
  import opened Prelude
  import opened Sets
  import opened Lru
  import opened Directory
  import opened DiskIndex
  import S = Shelf

  // ---------------------------------------------------------------- same keys, same order

  ghost predicate Agree<K(!new), V, W>(m: map<K, Slot<V>>, d: map<K, Slot<W>>) {
    && m.Keys == d.Keys
    && forall a, b :: a in m && b in m ==> (m[a].stamp < m[b].stamp <==> d[a].stamp < d[b].stamp)
  }

  lemma AgreeDrop<K(!new), V, W>(m: map<K, Slot<V>>, d: map<K, Slot<W>>, keys: set<K>)
    requires Agree(m, d)
    ensures Agree(m - keys, d - keys)
  {
    assert (m - keys).Keys == m.Keys - keys && (d - keys).Keys == d.Keys - keys;
  }

  /** A table whose slot for `k` is new and newer than all others. */
  ghost predicate Newest<K(!new), W>(d: map<K, Slot<W>>, k: K, stamp: nat) {
    forall j :: j in d && j != k ==> d[j].stamp < stamp
  }

  lemma AgreeTouch<K(!new), V, W>(m: map<K, Slot<V>>, m': map<K, Slot<V>>, d: map<K, Slot<W>>, k: K, slot: Slot<W>)
    requires Agree(m, d) && S.MovedToFront(m, m', k) && Newest(d, k, slot.stamp)
    ensures Agree(m', d[k := slot])
  {
    assert d[k := slot].Keys == d.Keys;
  }

  lemma AgreePut<K(!new), V, W>(m: map<K, Slot<V>>, m': map<K, Slot<V>>, d: map<K, Slot<W>>, k: K, v: V, weight: nat,
                                gone: set<K>, slot: Slot<W>)
    requires Agree(m, d) && k !in m && gone <= m.Keys
    requires S.PutOver(m, m', k, v, weight, gone) && Newest(d, k, slot.stamp)
    ensures Agree(m', d[k := slot] - gone)
  {
    assert (d[k := slot] - gone).Keys == d.Keys - gone + {k};
  }

  // ---------------------------------------------------------------- names

  ghost predicate NamesDistinct<K(!new), G>(d: map<K, Slot<RecordInfo<G>>>) {
    forall a, b :: a in d && b in d && a != b ==> d[a].value.name != d[b].value.name
                                                  && d[a].value.inode != d[b].value.inode
  }

  predicate Listed<G>(names: map<Name, nat>, info: RecordInfo<G>) {
    info.name in names && names[info.name] == info.inode
  }

  ghost predicate Owned<K(!new), G>(d: map<K, Slot<RecordInfo<G>>>, n: Name) {
    exists k :: k in d && d[k].value.name == n
  }

  /** `names` are exactly the directory entries of the records. */
  ghost predicate Lists<K(!new), G>(names: map<Name, nat>, d: map<K, Slot<RecordInfo<G>>>) {
    && (forall k :: k in d ==> Listed(names, d[k].value))
    && forall n :: n in names ==> Owned(d, n)
  }

  function NameSet<K, G>(d: map<K, Slot<RecordInfo<G>>>, keys: set<K>): set<Name> {
    set k | k in keys && k in d :: d[k].value.name
  }

  lemma ListsDrop<K(!new), G>(names: map<Name, nat>, d: map<K, Slot<RecordInfo<G>>>, keys: set<K>)
    requires NamesDistinct(d) && Lists(names, d)
    ensures NamesDistinct(d - keys) && Lists(names - NameSet(d, keys), d - keys)
  {
    var left := names - NameSet(d, keys);
    forall n | n in left
      ensures Owned(d - keys, n)
    {
      var k :| k in d && d[k].value.name == n;
      assert k in d - keys;
    }
    forall k | k in d - keys
      ensures Listed(left, (d - keys)[k].value)
    {
      assert Listed(names, d[k].value);
      assert d[k].value.name !in NameSet(d, keys);
    }
  }

  lemma ListsPut<K(!new), G>(names: map<Name, nat>, d: map<K, Slot<RecordInfo<G>>>, k: K, slot: Slot<RecordInfo<G>>)
    requires NamesDistinct(d) && Lists(names, d) && k !in d && slot.value.name !in names
    requires forall j :: j in d ==> d[j].value.inode != slot.value.inode
    ensures NamesDistinct(d[k := slot])
    ensures Lists(names[slot.value.name := slot.value.inode], d[k := slot])
  {
    forall j | j in d
      ensures d[j].value.name != slot.value.name
    {
      assert Listed(names, d[j].value);
    }
    var more := names[slot.value.name := slot.value.inode];
    forall n | n in more
      ensures Owned(d[k := slot], n)
    {
      if n == slot.value.name {
        assert d[k := slot][k] == slot;
      } else {
        var j :| j in d && d[j].value.name == n;
        assert d[k := slot][j] == d[j];
      }
    }
  }

  // ---------------------------------------------------------------- files

  /** The record's file is complete and on disk. */
  ghost predicate FiledAt<G>(files: map<nat, File>, slot: Slot<RecordInfo<G>>) {
    && slot.value.name.Rec? && 0 < slot.value.name.sequence == slot.stamp
    && slot.value.inode in files && files[slot.value.inode].synced && |files[slot.value.inode].bytes| == slot.weight
  }

  ghost predicate AllFiled<K, G>(files: map<nat, File>, d: map<K, Slot<RecordInfo<G>>>) {
    forall k :: k in d ==> FiledAt(files, d[k])
  }

  /** The directory is quiescent and holds exactly the records, each in a file of its own. */
  ghost predicate Filed<K(!new), G>(dir: Dir, d: map<K, Slot<RecordInfo<G>>>) {
    && dir.pending == [] && NamesDistinct(d) && Lists(dir.durable, d) && AllFiled(dir.files, d)
  }

  lemma FiledDrop<K(!new), G>(dir: Dir, d: map<K, Slot<RecordInfo<G>>>, keys: set<K>)
    requires Filed(dir, d)
    ensures Filed(dir.(durable := dir.durable - NameSet(d, keys)), d - keys)
  {
    ListsDrop(dir.durable, d, keys);
  }

  lemma FiledPut<K(!new), G>(dir: Dir, d: map<K, Slot<RecordInfo<G>>>, k: K, slot: Slot<RecordInfo<G>>, bytes: Bytes)
    requires Filed(dir, d) && k !in d
    requires slot.value.name !in dir.durable && slot.value.inode !in dir.files
    requires slot.value.name.Rec? && 0 < slot.value.name.sequence == slot.stamp && slot.weight == |bytes|
    ensures Filed(Dir(dir.durable[slot.value.name := slot.value.inode], [],
                      dir.files[slot.value.inode := File(bytes, true)]), d[k := slot])
  {
    forall j | j in d
      ensures d[j].value.inode != slot.value.inode
    {
      assert FiledAt(dir.files, d[j]);
    }
    ListsPut(dir.durable, d, k, slot);
  }

  // ---------------------------------------------------------------- accounting

  /** Adding a record with a new access number, when there is room. */
  lemma FileKeepsValid<K(!new), W>(h: S.Shelf<K, W>, k: K, w: W, weight: nat, limits: S.Limits)
    requires S.Valid(h, limits) && limits.maxBytes < U64_MAX && h.clock < U64_MAX && 2 <= weight && k !in h.slots
    requires Fits(h.slots, Room(weight, limits.maxCount, limits.maxBytes))
    ensures S.Valid(S.Shelf(h.slots[k := Slot(w, h.clock + 1, weight)], SatAdd(h.bytes, weight), h.clock + 1), limits)
    ensures Newest(h.slots, k, h.clock + 1)
  {
    S.AddKeepsValid(h.(clock := h.clock + 1), k, w, weight, limits);
  }

  /** Taking a record out leaves room for one of the same size. */
  lemma RoomForSame<K(!new), W>(h: S.Shelf<K, W>, k: K, limits: S.Limits)
    requires S.Valid(h, limits) && k in h.slots
    ensures S.Valid(S.Drop(h, {k}), limits) && k !in S.Drop(h, {k}).slots
    ensures Fits(S.Drop(h, {k}).slots, Room(h.slots[k].weight, limits.maxCount, limits.maxBytes))
  {
    S.DropKeepsValid(h, {k}, limits);
    WeightRemove(h.slots, k);
    RemoveKeysSize(h.slots, {k});
    assert {k} * h.slots.Keys == {k};
  }

  /** A record replaced by one of the same size with a new access number. */
  lemma RefileKeepsValid<K(!new), W>(h: S.Shelf<K, W>, k: K, w: W, limits: S.Limits)
    requires S.Valid(h, limits) && limits.maxBytes < U64_MAX && h.clock < U64_MAX && k in h.slots
    ensures var d := S.Drop(h, {k});
            S.Valid(S.Shelf(d.slots[k := Slot(w, h.clock + 1, h.slots[k].weight)], SatAdd(d.bytes, h.slots[k].weight),
                            h.clock + 1), limits)
    ensures Newest(h.slots, k, h.clock + 1)
  {
    RoomForSame(h, k, limits);
    FileKeepsValid(S.Drop(h, {k}), k, w, h.slots[k].weight, limits);
  }

  // ---------------------------------------------------------------- tables

  lemma PutThenDrop<K, V>(d: map<K, V>, v: V, k: K, gone: set<K>)
    requires k !in d && gone <= d.Keys
    ensures d[k := v] - gone - {k} == d - gone && Sub(d - gone, d)
  {
  }

  /** Victims leave, one key comes, and others leave. */
  lemma SwapTables<K, V>(d: map<K, V>, victims: set<K>, v: V, k: K, gone: set<K>)
    requires victims <= d.Keys && (k in d ==> k in victims) && gone <= (d - victims).Keys
    ensures var middle := (d - victims)[k := v];
            && Sub(middle - {k}, d) && Sub(middle - gone, middle) && k in middle - gone
            && d.Keys - (middle.Keys - {k}) == victims && middle.Keys - (middle - gone).Keys == gone
  {
    var middle := (d - victims)[k := v];
    assert middle.Keys == d.Keys - victims + {k};
    assert (middle - gone).Keys == middle.Keys - gone;
    assert k !in d - victims;
  }
}
